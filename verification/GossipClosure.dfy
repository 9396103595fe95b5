/** Gossip on sets of addresses: who knows whom, and what the syncs make of it. */
module GossipClosure {
  import opened Options
  import opened Sequences

  /** What identifies a node on the network. */
  datatype Addr = Addr(ipaddr: string, port: nat)

  type Knows = map<Addr, set<Addr>>

  /** One node asks another to sync: `asker` learns the peer it asks and whatever part of its
      knowledge is relayed; or the sync fails, and a record of the peer is removed, which
      `forgets` its address when no other record has it. */
  datatype Contact =
    | Sync(asker: Addr, peer: Addr, relayed: set<Addr>)
    | Failure(asker: Addr, peer: Addr, forgets: bool)

  /** Every known address belongs to a running node. */
  ghost predicate Closed(k: Knows) {
    forall v :: v in k ==> k[v] <= k.Keys
  }

  predicate Enabled(k: Knows, s: Contact) {
    s.Sync? && s.asker in k && s.peer in k && s.peer in k[s.asker] && s.relayed <= k[s.peer]
  }

  function Step(k: Knows, s: Contact): Knows {
    if Enabled(k, s) then k[s.asker := k[s.asker] + {s.peer} + s.relayed]
    else if s.Failure? && s.forgets && s.asker in k then k[s.asker := k[s.asker] - {s.peer}]
    else k
  }

  /** What is known after the first `n` syncs, in whatever order they come. */
  function Run(g: Knows, syncs: seq<Contact>, n: nat): Knows
    requires n <= |syncs|
  {
    if n == 0 then g else Step(Run(g, syncs, n - 1), syncs[n - 1])
  }

  // ---- the transitive closure ----

  ghost predicate IsPath(g: Knows, p: seq<Addr>) {
    |p| >= 2 && forall i :: 0 <= i < |p| - 1 ==> p[i] in g && p[i + 1] in g[p[i]]
  }

  ghost predicate Reaches(g: Knows, a: Addr, b: Addr) {
    exists p :: IsPath(g, p) && p[0] == a && p[|p| - 1] == b
  }

  lemma EdgeReaches(g: Knows, a: Addr, b: Addr)
    requires a in g && b in g[a]
    ensures Reaches(g, a, b)
  {
    assert IsPath(g, [a, b]);
  }

  lemma ReachesOn(g: Knows, a: Addr, b: Addr, c: Addr)
    requires Reaches(g, a, b) && Reaches(g, b, c)
    ensures Reaches(g, a, c)
  {
    var p :| IsPath(g, p) && p[0] == a && p[|p| - 1] == b;
    var q :| IsPath(g, q) && q[0] == b && q[|q| - 1] == c;
    var r := p + q[1..];
    forall i | 0 <= i < |r| - 1
      ensures r[i] in g && r[i + 1] in g[r[i]]
    {
      if i >= |p| - 1 { assert r[i] == q[i - |p| + 1] && r[i + 1] == q[i - |p| + 2]; }
    }
    assert IsPath(g, r) && r[0] == a && r[|r| - 1] == c;
  }

  /** Nothing is known that was not reachable. */
  ghost predicate Safe(g: Knows, k: Knows) {
    && k.Keys == g.Keys && Closed(k)
    && (forall v, b :: v in k && b in k[v] ==> Reaches(g, v, b))
  }

  /** Nor is anything forgotten. */
  ghost predicate Sound(g: Knows, k: Knows) {
    Safe(g, k) && forall v :: v in g ==> g[v] <= k[v]
  }

  lemma StepIsSafe(g: Knows, k: Knows, s: Contact)
    requires Safe(g, k)
    ensures Safe(g, Step(k, s))
    ensures s.Sync? && Sound(g, k) ==> Sound(g, Step(k, s))
  {
    if Enabled(k, s) {
      forall b | b in s.relayed
        ensures Reaches(g, s.asker, b)
      {
        ReachesOn(g, s.asker, s.peer, b);
      }
    }
  }

  lemma StartIsSound(g: Knows)
    requires Closed(g)
    ensures Sound(g, g)
  {
    forall v, b | v in g && b in g[v]
      ensures Reaches(g, v, b)
    {
      EdgeReaches(g, v, b);
    }
  }

  ghost predicate NoFailure(syncs: seq<Contact>, n: nat)
    requires n <= |syncs|
  {
    forall i :: 0 <= i < n ==> syncs[i].Sync?
  }

  /** Safety over every run, also one in which replies are cut short and syncs fail; and as long
      as none fails, nothing is forgotten. */
  lemma {:induction false} RunIsSound(g: Knows, syncs: seq<Contact>, n: nat)
    requires Closed(g) && n <= |syncs|
    ensures Safe(g, Run(g, syncs, n))
    ensures NoFailure(syncs, n) ==> Sound(g, Run(g, syncs, n))
  {
    if n == 0 {
      StartIsSound(g);
    } else {
      RunIsSound(g, syncs, n - 1);
      StepIsSafe(g, Run(g, syncs, n - 1), syncs[n - 1]);
    }
  }

  /** An address is only ever forgotten because a sync with it failed. */
  lemma {:induction false} ForgottenByFailure(g: Knows, syncs: seq<Contact>, n: nat, v: Addr, b: Addr) returns (i: nat)
    requires n <= |syncs| && v in g && b in g[v]
    requires v in Run(g, syncs, n) ==> b !in Run(g, syncs, n)[v]
    ensures i < n && syncs[i] == Failure(v, b, true)
  {
    var before := Run(g, syncs, n - 1);
    if v in before && b in before[v] {
      i := n - 1;
    } else {
      i := ForgottenByFailure(g, syncs, n - 1, v, b);
    }
  }

  // ---- where gossip stops ----

  /** No sync with a full reply would change anything. */
  ghost predicate Quiescent(k: Knows) {
    forall v, u :: v in k && u in k[v] && u in k ==> Step(k, Sync(v, u, k[u])) == k
  }

  ghost predicate IsClosure(g: Knows, k: Knows) {
    && k.Keys == g.Keys
    && (forall v, b :: v in k && b in k[v] ==> Reaches(g, v, b))
    && (forall v, b :: v in k && Reaches(g, v, b) ==> b in k[v])
  }

  /** A sync that changes nothing relays nothing new. */
  lemma QuietSync(k: Knows, v: Addr, u: Addr)
    requires v in k && u in k[v] && u in k
    ensures Step(k, Sync(v, u, k[u])) == k <==> k[u] <= k[v]
  {
    if k[u] <= k[v] {
      assert k[v] + {u} + k[u] == k[v];
    } else {
      assert Step(k, Sync(v, u, k[u]))[v] != k[v];
    }
  }

  lemma {:induction false} PathIsKnown(g: Knows, k: Knows, p: seq<Addr>)
    requires k.Keys == g.Keys && Closed(k) && (forall v :: v in g ==> g[v] <= k[v])
    requires Quiescent(k) && IsPath(g, p)
    ensures p[0] in k && p[|p| - 1] in k[p[0]]
  {
    var v, u := p[0], p[1];
    assert v in g && u in g[v];
    assert g[v] <= k[v] && k[v] <= k.Keys;
    if |p| > 2 {
      PathIsKnown(g, k, p[1..]);
      QuietSync(k, v, u);
    }
  }

  /** A state reached without failures is quiescent exactly when it is the closure. */
  lemma QuiescentIffClosure(g: Knows, k: Knows)
    requires Sound(g, k)
    ensures Quiescent(k) <==> IsClosure(g, k)
  {
    if Quiescent(k) {
      forall v, b | v in k && Reaches(g, v, b)
        ensures b in k[v]
      {
        var p :| IsPath(g, p) && p[0] == v && p[|p| - 1] == b;
        PathIsKnown(g, k, p);
      }
    }
    if IsClosure(g, k) {
      forall v, u | v in k && u in k[v] && u in k
        ensures Step(k, Sync(v, u, k[u])) == k
      {
        forall b | b in k[u]
          ensures b in k[v]
        {
          ReachesOn(g, v, u, b);
        }
        QuietSync(k, v, u);
      }
    }
  }

  lemma {:induction false} PathIsReach(g: Knows, k: Knows, p: seq<Addr>)
    requires Safe(g, k) && IsPath(k, p)
    ensures Reaches(g, p[0], p[|p| - 1])
  {
    if |p| > 2 {
      PathIsReach(g, k, p[1..]);
      ReachesOn(g, p[0], p[1], p[|p| - 1]);
    }
  }

  /** As long as nothing is forgotten, what can be reached stays the same. */
  lemma SameReach(g: Knows, k: Knows, v: Addr, b: Addr)
    requires Sound(g, k)
    ensures Reaches(k, v, b) <==> Reaches(g, v, b)
  {
    if Reaches(k, v, b) {
      var p :| IsPath(k, p) && p[0] == v && p[|p| - 1] == b;
      PathIsReach(g, k, p);
    }
    if Reaches(g, v, b) {
      var p :| IsPath(g, p) && p[0] == v && p[|p| - 1] == b;
      assert IsPath(k, p);
    }
  }

  lemma SameClosure(g: Knows, k: Knows, end: Knows)
    requires Sound(g, k) && IsClosure(k, end)
    ensures IsClosure(g, end)
  {
    forall v, b
      ensures Reaches(k, v, b) <==> Reaches(g, v, b)
    {
      SameReach(g, k, v, b);
    }
  }

  // ---- progress ----

  /** The pairs still to be learned. */
  ghost function Missing(g: Knows, k: Knows): set<(Addr, Addr)>
    requires k.Keys == g.Keys
  {
    set v, b | v in g.Keys && b in g.Keys && Reaches(g, v, b) && b !in k[v] :: (v, b)
  }

  /** Every sync that changes anything leaves strictly fewer missing pairs. */
  lemma ProductiveStep(g: Knows, k: Knows, s: Contact)
    requires Safe(g, k) && s.Sync? && Step(k, s) != k
    ensures Step(k, s).Keys == g.Keys && |Missing(g, Step(k, s))| < |Missing(g, k)|
  {
    var k' := Step(k, s);
    StepIsSafe(g, k, s);
    assert k[s.asker := k[s.asker]] == k;
    var news := ({s.peer} + s.relayed) - k[s.asker];
    assert k[s.asker] + {s.peer} + s.relayed == k[s.asker] + news;
    assert k[s.asker] + {} == k[s.asker];
    assert news != {};
    var b :| b in news;
    assert (s.asker, b) in Missing(g, k) && (s.asker, b) !in Missing(g, k');
    Subset(Missing(g, k') , Missing(g, k), (s.asker, b));
  }

  /** A failure adds at most one missing pair. */
  lemma FailureCost(g: Knows, k: Knows, s: Contact)
    requires Safe(g, k) && s.Failure?
    ensures Step(k, s).Keys == g.Keys && |Missing(g, Step(k, s))| <= |Missing(g, k)| + 1
  {
    var lost := {(s.asker, s.peer)};
    assert Missing(g, Step(k, s)) <= Missing(g, k) + lost;
    SubsetSize(Missing(g, Step(k, s)), Missing(g, k) + lost);
  }

  lemma Subset<P>(small: set<P>, big: set<P>, x: P)
    requires small <= big && x in big && x !in small
    ensures |small| < |big|
  {
    assert small <= big - {x};
    SubsetSize(small, big - {x});
  }

  lemma {:induction false} SubsetSize<P>(small: set<P>, big: set<P>)
    requires small <= big
    ensures |small| <= |big|
  {
    if small != {} {
      var x :| x in small;
      SubsetSize(small - {x}, big - {x});
    }
  }

  lemma {:induction false} PairCount(vs: set<Addr>, bs: set<Addr>, pairs: set<(Addr, Addr)>)
    requires forall q :: q in pairs ==> q.0 in vs && q.1 in bs
    ensures |pairs| <= |vs| * |bs|
  {
    if vs == {} {
      assert pairs == {};
    } else {
      var v :| v in vs;
      var here := set q | q in pairs && q.0 == v;
      var seconds := set q | q in here :: q.1;
      RowCount(here, v, bs);
      PairCount(vs - {v}, bs, pairs - here);
      assert pairs == here + (pairs - here);
      assert |vs| * |bs| == (|vs| - 1) * |bs| + |bs|;
    }
  }

  lemma {:induction false} RowCount(row: set<(Addr, Addr)>, v: Addr, bs: set<Addr>)
    requires forall q :: q in row ==> q.0 == v && q.1 in bs
    ensures |row| <= |bs|
  {
    if row != {} {
      var q :| q in row;
      RowCount(row - {q}, v, bs - {q.1});
    }
  }

  /** Which contacts are syncs that change anything. */
  function Changing(g: Knows, syncs: seq<Contact>): (r: seq<bool>)
    ensures |r| == |syncs|
    ensures forall i {:trigger r[i]} :: 0 <= i < |syncs| ==>
      r[i] == (syncs[i].Sync? && Run(g, syncs, i + 1) != Run(g, syncs, i))
  {
    seq(|syncs|, i requires 0 <= i < |syncs| => syncs[i].Sync? && Run(g, syncs, i + 1) != Run(g, syncs, i))
  }

  function Failing(syncs: seq<Contact>): (r: seq<bool>)
    ensures |r| == |syncs| && forall i {:trigger r[i]} :: 0 <= i < |syncs| ==> r[i] == syncs[i].Failure?
  {
    seq(|syncs|, i requires 0 <= i < |syncs| => syncs[i].Failure?)
  }

  lemma StepCost(g: Knows, k: Knows, s: Contact)
    requires Safe(g, k)
    ensures Safe(g, Step(k, s))
    ensures |Missing(g, Step(k, s))| + (if s.Sync? && Step(k, s) != k then 1 else 0)
         <= |Missing(g, k)| + (if s.Failure? then 1 else 0)
  {
    StepIsSafe(g, k, s);
    if s.Failure? { FailureCost(g, k, s); } else if Step(k, s) != k { ProductiveStep(g, k, s); }
  }

  lemma {:induction false} ProgressLedger(g: Knows, syncs: seq<Contact>, n: nat)
    requires Closed(g) && n <= |syncs|
    ensures Safe(g, Run(g, syncs, n))
    ensures Count(Changing(g, syncs), n) + |Missing(g, Run(g, syncs, n))| <= |Missing(g, g)| + Count(Failing(syncs), n)
  {
    if n == 0 {
      StartIsSound(g);
    } else {
      ProgressLedger(g, syncs, n - 1);
      StepCost(g, Run(g, syncs, n - 1), syncs[n - 1]);
    }
  }

  /** In any run at most n^2 syncs change anything, and one more for each failure. */
  lemma ProductiveBound(g: Knows, syncs: seq<Contact>)
    requires Closed(g)
    ensures Count(Changing(g, syncs), |syncs|) <= |g.Keys| * |g.Keys| + Count(Failing(syncs), |syncs|)
  {
    ProgressLedger(g, syncs, |syncs|);
    PairCount(g.Keys, g.Keys, Missing(g, g));
  }

  /** A sync that is possible, and whose reply is not cut short. */
  predicate IsFull(k: Knows, s: Contact) {
    Enabled(k, s) && s.relayed == k[s.peer]
  }

  /** The first `n` of `more` are full syncs, each possible when its turn comes. */
  predicate FullSyncs(k: Knows, more: seq<Contact>, n: nat)
    requires n <= |more|
  {
    n == 0 || (FullSyncs(k, more, n - 1) && IsFull(Run(k, more, n - 1), more[n - 1]))
  }

  lemma {:induction false} Prepend(k: Knows, s: Contact, rest: seq<Contact>, n: nat)
    requires n <= |rest| && IsFull(k, s) && FullSyncs(Step(k, s), rest, n)
    ensures FullSyncs(k, [s] + rest, n + 1)
    ensures Run(k, [s] + rest, n + 1) == Run(Step(k, s), rest, n)
  {
    if n == 0 {
      assert Run(k, [s] + rest, 0) == k && FullSyncs(k, [s] + rest, 0);
    } else {
      Prepend(k, s, rest, n - 1);
      assert ([s] + rest)[n] == rest[n - 1];
    }
  }

  /** Short of the closure there is a full sync that brings it closer. */
  lemma NextSync(g: Knows, k: Knows) returns (next: Option<Contact>)
    requires Sound(g, k)
    ensures next.None? ==> IsClosure(g, k)
    ensures next.Some? ==>
      IsFull(k, next.value) && Sound(g, Step(k, next.value)) && |Missing(g, Step(k, next.value))| < |Missing(g, k)|
  {
    QuiescentIffClosure(g, k);
    next := None;
    if !Quiescent(k) {
      var v, u :| v in k && u in k[v] && u in k && Step(k, Sync(v, u, k[u])) != k;
      var s := Sync(v, u, k[u]);
      ProductiveStep(g, k, s);
      StepIsSafe(g, k, s);
      next := Some(s);
    }
  }

  /** From every state gossip can be in, a finite schedule of full syncs reaches the closure,
      no longer than the number of missing pairs. */
  lemma {:induction false} ClosureIsReachable(g: Knows, k: Knows) returns (more: seq<Contact>, end: Knows)
    requires Sound(g, k)
    ensures FullSyncs(k, more, |more|) && |more| <= |Missing(g, k)|
    ensures end == Run(k, more, |more|) && IsClosure(g, end)
    decreases |Missing(g, k)|
  {
    more, end := [], k;
    var next := NextSync(g, k);
    if next.Some? {
      more, end := ClosureIsReachable(g, Step(k, next.value));
      Prepend(k, next.value, more, |more|);
      more := [next.value] + more;
    }
  }
}
