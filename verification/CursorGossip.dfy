/** Gossip as the syncers run it: each node asks the entry under its cursor, and the cursor moves
    on by one after each reply, while new records move the entries under it. */
module CursorGossip {
  import opened Gossip
  import opened GossipClosure
  import opened Pools
  import SyncerPass

  // ---- starting graphs in which a node knows at most one other ----

  ghost predicate Functional(g: Knows) {
    forall v, a, b :: v in g && a in g[v] && b in g[v] ==> a == b
  }

  /** A path from `v` to `b` along which `v` knows every node. */
  ghost predicate IsTrail(g: Knows, known: set<Addr>, p: seq<Addr>, v: Addr, b: Addr) {
    && IsPath(g, p) && p[0] == v && p[|p| - 1] == b
    && forall i :: 1 <= i < |p| ==> p[i] in known
  }

  ghost predicate HasTrail(g: Knows, known: set<Addr>, v: Addr, b: Addr) {
    exists p :: IsTrail(g, known, p, v, b)
  }

  /** Whatever a node knows, it also knows the nodes on some path there. */
  ghost predicate Supported(g: Knows, k: Knows) {
    forall v, b :: v in k && b in k[v] ==> HasTrail(g, k[v], v, b)
  }

  lemma StartIsSupported(g: Knows)
    ensures Supported(g, g)
  {
    forall v, b | v in g && b in g[v]
      ensures HasTrail(g, g[v], v, b)
    {
      assert IsTrail(g, g[v], [v, b], v, b);
    }
  }

  lemma JoinTrails(g: Knows, a: set<Addr>, b: set<Addr>, v: Addr, u: Addr, w: Addr)
    requires HasTrail(g, a, v, u) && HasTrail(g, b, u, w)
    ensures HasTrail(g, a + b, v, w)
  {
    var p :| IsTrail(g, a, p, v, u);
    var q :| IsTrail(g, b, q, u, w);
    var r := p + q[1..];
    assert IsPath(g, r) by {
      forall i | 0 <= i < |r| - 1
        ensures r[i] in g && r[i + 1] in g[r[i]]
      {
        if i >= |p| - 1 { assert r[i] == q[i - |p| + 1] && r[i + 1] == q[i - |p| + 2]; }
      }
    }
    assert forall i :: |p| <= i < |r| ==> r[i] == q[i - |p| + 1];
    assert IsTrail(g, a + b, r, v, w);
  }

  lemma WiderTrail(g: Knows, a: set<Addr>, b: set<Addr>, v: Addr, w: Addr)
    requires HasTrail(g, a, v, w) && a <= b
    ensures HasTrail(g, b, v, w)
  {
    var p :| IsTrail(g, a, p, v, w);
    assert IsTrail(g, b, p, v, w);
  }

  lemma FullSyncKeepsSupport(g: Knows, k: Knows, s: Contact)
    requires Supported(g, k) && IsFull(k, s)
    ensures Supported(g, Step(k, s))
  {
    var v, u, k' := s.asker, s.peer, Step(k, s);
    assert k'[v] == k[v] + k[u];
    forall b | b in k'[v]
      ensures HasTrail(g, k'[v], v, b)
    {
      if b in k[v] { WiderTrail(g, k[v], k'[v], v, b); } else { JoinTrails(g, k[v], k[u], v, u, b); }
    }
  }

  /** Paths from one node run along each other. */
  lemma {:induction false} PathsAgree(g: Knows, p: seq<Addr>, q: seq<Addr>, i: nat)
    requires Functional(g) && IsPath(g, p) && IsPath(g, q) && p[0] == q[0] && i < |p| && i < |q|
    ensures p[i] == q[i]
  {
    if i > 0 { PathsAgree(g, p, q, i - 1); }
  }

  /** Whoever knows the way to `w` knows everything on its one path up to there; everything
      else it can reach lies behind `w`, and nearer to `w` than to itself. */
  lemma BehindTrail(g: Knows, known: set<Addr>, v: Addr, w: Addr, q: seq<Addr>) returns (rest: seq<Addr>)
    requires Functional(g) && HasTrail(g, known, v, w) && IsPath(g, q) && q[0] == v
    ensures q[|q| - 1] in known
         || (IsPath(g, rest) && rest[0] == w && rest[|rest| - 1] == q[|q| - 1] && |rest| < |q|)
  {
    rest := [];
    var p :| IsTrail(g, known, p, v, w);
    if |q| <= |p| {
      PathsAgree(g, p, q, |q| - 1);
    } else {
      PathsAgree(g, p, q, |p| - 1);
      rest := q[|p| - 1..];
    }
  }

  /** A node that has learned of itself has been all round its cycle. */
  lemma {:induction false} RoundTheCycle(g: Knows, known: set<Addr>, w: Addr, q: seq<Addr>)
    requires Functional(g) && HasTrail(g, known, w, w) && IsPath(g, q) && q[0] == w
    ensures q[|q| - 1] in known
    decreases |q|
  {
    var rest := BehindTrail(g, known, w, w, q);
    if q[|q| - 1] !in known { RoundTheCycle(g, known, w, rest); }
  }

  /** Some node it knows could tell `v` nothing new. */
  ghost predicate Content(k: Knows, v: Addr) {
    v in k && k[v] != {} ==> exists u :: u in k[v] && u in k && k[u] <= k[v]
  }

  /** If each node has someone to ask who tells it nothing new, every node knows all it can
      reach. It does not matter whom they ask. */
  lemma {:induction false} ContentIsComplete(g: Knows, k: Knows, v: Addr, q: seq<Addr>)
    requires Sound(g, k) && Functional(g) && Supported(g, k) && forall a :: a in k ==> Content(k, a)
    requires IsPath(g, q) && q[0] == v
    ensures v in k && q[|q| - 1] in k[v]
    decreases if v in k then |k[v]| else 0
  {
    assert v in g && q[1] in g[v] && g[v] <= k[v];
    assert Content(k, v);
    var u :| u in k[v] && u in k && k[u] <= k[v];
    var rest := BehindTrail(g, k[v], v, u, q);
    if q[|q| - 1] !in k[v] {
      if u in k[u] {
        RoundTheCycle(g, k[u], u, rest);
      } else {
        Subset(k[u], k[v], u);
        ContentIsComplete(g, k, u, rest);
      }
    }
  }

  lemma AllContentIsClosure(g: Knows, k: Knows)
    requires Sound(g, k) && Functional(g) && Supported(g, k) && forall a :: a in k ==> Content(k, a)
    ensures IsClosure(g, k)
  {
    forall v, b | v in k && Reaches(g, v, b)
      ensures b in k[v]
    {
      var q :| IsPath(g, q) && q[0] == v && q[|q| - 1] == b;
      ContentIsComplete(g, k, v, q);
    }
  }

  lemma NothingMissing(g: Knows, k: Knows)
    requires Closed(g) && Safe(g, k)
    ensures |Missing(g, k)| == 0 <==> IsClosure(g, k)
  {
    if |Missing(g, k)| == 0 {
      forall v, b | v in k && Reaches(g, v, b)
        ensures b in k[v]
      {
        var p :| IsPath(g, p) && p[0] == v && p[|p| - 1] == b;
        assert p[|p| - 2] in g && b in g[p[|p| - 2]];
        assert (v, b) !in Missing(g, k);
      }
    }
  }

  // ---- nodes with cursors ----

  /** The network, and where in its pool the syncer of each node stands. */
  datatype Walk = Walk(net: Network, cursors: map<Addr, nat>)

  ghost predicate ValidWalk(w: Walk) {
    && WellFormed(w.net) && w.cursors.Keys == w.net.pools.Keys
    && forall a :: a in w.cursors && w.net.pools[a] != [] ==> w.cursors[a] < |w.net.pools[a]|
  }

  ghost function Start(net: Network): Walk {
    Walk(net, map a | a in net.pools :: 0)
  }

  ghost predicate Asks(w: Walk, a: Addr) {
    && a in w.net.pools && a in w.cursors && w.cursors[a] < |w.net.pools[a]|
    && var u := AddrOf(w.net.pools[a][w.cursors[a]]);
    && u in w.net.pools && u in w.net.nodes
  }

  /** Whom the syncer of `a` asks next. */
  ghost function Asked(w: Walk, a: Addr): Addr
    requires Asks(w, a)
  {
    AddrOf(w.net.pools[a][w.cursors[a]])
  }

  /** Node `a` takes its turn: one visit of its pass, answered by the node it asks. A node with
      an empty pool has nobody to ask. */
  ghost function Turn(w: Walk, a: Addr): Walk {
    if Asks(w, a) then
      var u := Asked(w, a);
      var (pool, cursor) :=
        SyncerPass.Visit(w.net.pools[a], w.cursors[a], Answered(w.net.nodes[u].self, w.net.pools[u]));
      Walk(w.net.(pools := w.net.pools[a := pool]), w.cursors[a := cursor])
    else w
  }

  ghost function Turns(w: Walk, turns: seq<Addr>, n: nat): Walk
    requires n <= |turns|
  {
    if n == 0 then w else Turn(Turns(w, turns, n - 1), turns[n - 1])
  }

  /** The round of a turn: the whole reply of the node asked goes through the wire. */
  ghost function NextRound(w: Walk, a: Addr): Round
    requires Asks(w, a)
  {
    var u := Asked(w, a);
    Round(a, w.cursors[a], w.net.pools[u], FullReply(w.net.nodes[u], w.net.pools[u]))
  }

  lemma NextRoundIsAnswered(w: Walk, a: Addr)
    requires Asks(w, a)
    ensures CanSync(w.net, NextRound(w, a))
  {
    FullReplyCarries(w.net.nodes[Asked(w, a)], w.net.pools[Asked(w, a)]);
  }

  /** A turn is a round of gossip between nodes. */
  lemma TurnIsARound(w: Walk, a: Addr)
    requires WellFormed(w.net) && Asks(w, a)
    ensures CanSync(w.net, NextRound(w, a)) && Turn(w, a).net == Advance(w.net, NextRound(w, a))
  {
    NextRoundIsAnswered(w, a);
    RoundAnswers(w.net, NextRound(w, a));
  }

  /** The entry under the cursor is that of a running node. */
  lemma CursorEntry(w: Walk, a: Addr)
    requires WellFormed(w.net) && a in w.net.pools && a in w.cursors && w.cursors[a] < |w.net.pools[a]|
    ensures var u := AddrOf(w.net.pools[a][w.cursors[a]]);
      Asks(w, a) && Asked(w, a) == u && u in w.net.pools && u in w.net.nodes
  {
    var n := w.net.pools[a][w.cursors[a]];
    assert n in w.net.pools[a] && AddrOf(n) in Addrs(w.net.pools[a]);
  }

  /** A turn asks the entry under the cursor: the node comes to know that entry's address and all
      that is known there, and nobody else anything. */
  lemma TurnAsksUnderTheCursor(w: Walk, a: Addr)
    requires WellFormed(w.net) && a in w.net.pools && a in w.cursors && w.cursors[a] < |w.net.pools[a]|
    ensures var (u, k) := (AddrOf(w.net.pools[a][w.cursors[a]]), Known(w.net));
      a in k && u in k && Known(Turn(w, a).net) == k[a := k[a] + {u} + k[u]]
  {
    CursorEntry(w, a);
    TurnIsAFullSync(w, a);
  }

  /** It takes over every record of that node's pool, and moves the cursor on by one. */
  lemma TurnTakesItsRecords(w: Walk, a: Addr)
    requires WellFormed(w.net) && a in w.net.pools && a in w.cursors && w.cursors[a] < |w.net.pools[a]|
    ensures var (u, t) := (AddrOf(w.net.pools[a][w.cursors[a]]), Turn(w, a));
      && u in w.net.pools && u in w.net.nodes && a in t.net.pools
      && t.cursors == w.cursors[a := w.cursors[a] + 1]
      && t.net.pools[a] == Learn([w.net.nodes[u].self] + w.net.pools[a], w.net.pools[u])
      && (forall n :: n in w.net.pools[u] || n in w.net.pools[a] ==> n in t.net.pools[a])
  {
    CursorEntry(w, a);
    var u := AddrOf(w.net.pools[a][w.cursors[a]]);
    LearnElements([w.net.nodes[u].self] + w.net.pools[a], w.net.pools[u], |w.net.pools[u]|);
    assert w.net.pools[u][..|w.net.pools[u]|] == w.net.pools[u];
  }

  /** On sets, a turn is a full sync with the node asked. */
  lemma TurnIsAFullSync(w: Walk, a: Addr)
    requires WellFormed(w.net) && Asks(w, a)
    ensures var (k, u) := (Known(w.net), Asked(w, a));
      && WellFormed(Turn(w, a).net)
      && a in k && u in k && IsFull(k, Sync(a, u, k[u])) && Known(Turn(w, a).net) == Step(k, Sync(a, u, k[u]))
  {
    TurnIsARound(w, a);
    AnswerRefinesSync(w.net, NextRound(w, a));
    RoundIsEnabled(w.net, NextRound(w, a));
  }

  lemma TurnMovesCursor(w: Walk, a: Addr)
    requires w.cursors.Keys == w.net.pools.Keys && Asks(w, a)
    requires forall b :: b in w.cursors && w.net.pools[b] != [] ==> w.cursors[b] < |w.net.pools[b]|
    ensures var t := Turn(w, a);
      && t.cursors.Keys == t.net.pools.Keys
      && forall b :: b in t.cursors && t.net.pools[b] != [] ==> t.cursors[b] < |t.net.pools[b]|
  {
    var u := Asked(w, a);
    LearnIndices([w.net.nodes[u].self] + w.net.pools[a], w.net.pools[u]);
  }

  lemma TurnIsValid(w: Walk, a: Addr)
    requires ValidWalk(w)
    ensures ValidWalk(Turn(w, a))
  {
    if Asks(w, a) {
      TurnIsAFullSync(w, a);
      TurnMovesCursor(w, a);
    }
  }

  /** Only a node that knows nobody has nobody to ask. */
  lemma NobodyToAsk(w: Walk, a: Addr)
    requires ValidWalk(w) && a in w.net.pools && w.net.pools[a] != []
    ensures Asks(w, a)
  {
    var n := w.net.pools[a][w.cursors[a]];
    assert n in w.net.pools[a] && AddrOf(n) in Addrs(w.net.pools[a]);
  }

  /** The walk is one that began in `g`. */
  ghost predicate Good(g: Knows, w: Walk) {
    ValidWalk(w) && GoodFor(g, Known(w.net))
  }

  ghost predicate GoodFor(g: Knows, k: Knows) {
    Closed(g) && Functional(g) && Sound(g, k) && Supported(g, k)
  }

  lemma FullSyncStep(g: Knows, k: Knows, a: Addr, u: Addr)
    requires GoodFor(g, k) && u in k && IsFull(k, Sync(a, u, k[u]))
    ensures var k' := Step(k, Sync(a, u, k[u]));
      GoodFor(g, k') && (|Missing(g, k')| < |Missing(g, k)| || (k' == k && Content(k, a)))
  {
    var s := Sync(a, u, k[u]);
    StepIsSafe(g, k, s);
    FullSyncKeepsSupport(g, k, s);
    if Step(k, s) != k { ProductiveStep(g, k, s); } else { QuietSync(k, a, u); }
  }

  /** Each turn brings the closure nearer, or its node has asked one that tells it nothing new. */
  lemma TurnStep(g: Knows, w: Walk, a: Addr)
    requires Good(g, w)
    ensures var (k, k') := (Known(w.net), Known(Turn(w, a).net));
      && Good(g, Turn(w, a))
      && (|Missing(g, k')| < |Missing(g, k)| || (k' == k && Content(k, a)))
  {
    TurnIsValid(w, a);
    if a in w.net.pools && w.net.pools[a] != [] {
      NobodyToAsk(w, a);
      TurnIsAFullSync(w, a);
      FullSyncStep(g, Known(w.net), a, Asked(w, a));
    } else if a in w.net.pools {
      assert Known(w.net)[a] == {};
    }
  }

  /** The first `n` turns brought the closure nearer, or each of their nodes has asked one that
      tells it nothing new. */
  ghost predicate Brought(g: Knows, w: Walk, now: Walk, turns: seq<Addr>, n: nat)
    requires n <= |turns|
  {
    && Good(g, w) && Good(g, now)
    && (|Missing(g, Known(now.net))| < |Missing(g, Known(w.net))|
        || (Known(now.net) == Known(w.net) && forall i :: 0 <= i < n ==> Content(Known(w.net), turns[i])))
  }

  lemma OneMoreTurn(g: Knows, w: Walk, before: Walk, turns: seq<Addr>, n: nat) returns (now: Walk)
    requires n < |turns| && Brought(g, w, before, turns, n)
    ensures now == Turn(before, turns[n]) && Brought(g, w, now, turns, n + 1)
  {
    now := Turn(before, turns[n]);
    TurnStep(g, before, turns[n]);
  }

  lemma {:induction false} TurnsStep(g: Knows, w: Walk, turns: seq<Addr>, n: nat) returns (now: Walk)
    requires Good(g, w) && n <= |turns|
    ensures now == Turns(w, turns, n) && Brought(g, w, now, turns, n)
  {
    now := w;
    if n > 0 {
      var before := TurnsStep(g, w, turns, n - 1);
      now := OneMoreTurn(g, w, before, turns, n - 1);
    }
  }

  // ---- what cursors lead to ----

  lemma BootstrapIsFunctional(net: Network)
    requires Bootstrapped(net)
    ensures Functional(Known(net))
  {
    forall v, a, b | v in net.pools && a in Addrs(net.pools[v]) && b in Addrs(net.pools[v])
      ensures a == b
    {
    }
  }

  lemma StartIsValid(net: Network)
    requires WellFormed(net)
    ensures ValidWalk(Start(net))
  {
  }

  lemma BootstrapIsGood(net: Network)
    requires Bootstrapped(net)
    ensures Good(Known(net), Start(net))
  {
    BootstrapIsWellFormed(net);
    BootstrapIsFunctional(net);
    StartIsValid(net);
    KnownIsClosed(net);
    StartIsSound(Known(net));
    StartIsSupported(Known(net));
  }

  ghost predicate Idle(w: Walk) {
    forall a :: Known(Turn(w, a).net) == Known(w.net)
  }

  /** Nodes that were each given at most one address to start with are never stuck short of the
      closure: however the turns came, the syncers stop learning, each asking whom its cursor
      names, exactly when every node knows all it can reach. */
  lemma CursorsStopAtTheClosure(net: Network, turns: seq<Addr>)
    requires Bootstrapped(net)
    ensures var w := Turns(Start(net), turns, |turns|);
      Idle(w) <==> IsClosure(Known(net), Known(w.net))
  {
    var g, w := Known(net), Turns(Start(net), turns, |turns|);
    var k := Known(w.net);
    BootstrapIsGood(net);
    var _ := TurnsStep(g, Start(net), turns, |turns|);
    NothingMissing(g, k);
    forall a
      ensures Good(g, Turn(w, a))
      ensures |Missing(g, Known(Turn(w, a).net))| < |Missing(g, k)| || (Known(Turn(w, a).net) == k && Content(k, a))
    {
      TurnStep(g, w, a);
    }
    if Idle(w) { AllContentIsClosure(g, k); }
  }

  ghost function RoundsOfTurns(w: Walk, rounds: seq<seq<Addr>>, n: nat): Walk
    requires n <= |rounds|
  {
    if n == 0 then w else Turns(RoundsOfTurns(w, rounds, n - 1), rounds[n - 1], |rounds[n - 1]|)
  }

  lemma RoundProgress(g: Knows, w: Walk, turns: seq<Addr>) returns (after: Walk)
    requires Good(g, w) && forall a :: a in w.net.pools ==> a in turns
    ensures after == Turns(w, turns, |turns|) && Good(g, after)
    ensures |Missing(g, Known(after.net))| < |Missing(g, Known(w.net))| || |Missing(g, Known(after.net))| == 0
  {
    var k := Known(w.net);
    after := TurnsStep(g, w, turns, |turns|);
    if |Missing(g, Known(after.net))| >= |Missing(g, k)| {
      KnownKeys(w.net);
      forall a | a in k
        ensures Content(k, a)
      {
        var i :| 0 <= i < |turns| && turns[i] == a;
      }
      AllContentIsClosure(g, k);
      NothingMissing(g, k);
    }
  }

  lemma {:induction false} RoundsProgress(g: Knows, w: Walk, rounds: seq<seq<Addr>>, n: nat) returns (after: Walk)
    requires Good(g, w) && n <= |rounds| && forall i, a :: 0 <= i < n && a in w.net.pools ==> a in rounds[i]
    ensures after == RoundsOfTurns(w, rounds, n) && Good(g, after)
    ensures |Missing(g, Known(after.net))| + n <= |Missing(g, Known(w.net))| || |Missing(g, Known(after.net))| == 0
  {
    after := w;
    if n > 0 {
      var before := RoundsProgress(g, w, rounds, n - 1);
      KnownKeys(before.net);
      KnownKeys(w.net);
      after := RoundProgress(g, before, rounds[n - 1]);
    }
  }

  /** Under every schedule in which each node gets its turn in each round, n^2 rounds complete
      the closure, with every node asking only whom its cursor names. */
  lemma EveryFairScheduleCompletes(net: Network, rounds: seq<seq<Addr>>)
    requires Bootstrapped(net) && |rounds| >= |net.pools.Keys| * |net.pools.Keys|
    requires forall i, a :: 0 <= i < |rounds| && a in net.pools ==> a in rounds[i]
    ensures IsClosure(Known(net), Known(RoundsOfTurns(Start(net), rounds, |rounds|).net))
  {
    BootstrapIsGood(net);
    KnownKeys(net);
    var _ := FairRoundsComplete(Known(net), Start(net), rounds);
  }

  lemma FairRoundsComplete(g: Knows, w: Walk, rounds: seq<seq<Addr>>) returns (after: Walk)
    requires Good(g, w) && |rounds| >= |g.Keys| * |g.Keys|
    requires forall i, a :: 0 <= i < |rounds| && a in w.net.pools ==> a in rounds[i]
    ensures after == RoundsOfTurns(w, rounds, |rounds|) && IsClosure(g, Known(after.net))
  {
    after := RoundsProgress(g, w, rounds, |rounds|);
    PairCount(g.Keys, g.Keys, Missing(g, Known(w.net)));
    NothingMissing(g, Known(after.net));
  }
}
