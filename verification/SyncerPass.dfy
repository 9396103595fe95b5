/** The cursor arithmetic of one pass over a pool that changes under the cursor. */
module SyncerPass {
  import opened Arithmetic
  import opened Sequences
  import opened Pools

  /** The pool after the first `k` outcomes, and the number of entries visited, which is where
      the cursor stands. Outcomes after the end of the pass are not used. */
  function Pass<T(==)>(pool: seq<T>, outcomes: seq<Outcome<T>>, k: nat): (r: (seq<T>, nat))
    requires k <= |outcomes|
    ensures r.1 <= k
  {
    if k == 0 then (pool, 0)
    else
      var (p, i) := Pass(pool, outcomes, k - 1);
      Visit(p, i, outcomes[k - 1])
  }

  function Visit<T(==)>(p: seq<T>, i: nat, outcome: Outcome<T>): (seq<T>, nat) {
    if i >= |p| then (p, i) else (SyncWith(p, p[i], outcome), i + 1)
  }

  /** The entries visited with the first `k` outcomes. */
  function Visits<T(==)>(pool: seq<T>, outcomes: seq<Outcome<T>>, k: nat): (r: seq<T>)
    requires k <= |outcomes|
    ensures |r| == Pass(pool, outcomes, k).1
  {
    if k == 0 then []
    else
      var (p, i) := Pass(pool, outcomes, k - 1);
      Visits(pool, outcomes, k - 1) + if i < |p| then [p[i]] else []
  }

  predicate Ended<T(==)>(pool: seq<T>, outcomes: seq<Outcome<T>>, k: nat)
    requires k <= |outcomes|
  {
    var (p, i) := Pass(pool, outcomes, k);
    i >= |p|
  }

  function Failures<T(==)>(outcomes: seq<Outcome<T>>, k: nat): nat
    requires k <= |outcomes|
  {
    if k == 0 then 0 else Failures(outcomes, k - 1) + if outcomes[k - 1].Failed? then 1 else 0
  }

  /** The sum of what each of the first `k` replies added to the pool it met. */
  function Fresh<T(==)>(pool: seq<T>, outcomes: seq<Outcome<T>>, k: nat): nat
    requires k <= |outcomes|
  {
    if k == 0 then 0
    else Fresh(pool, outcomes, k - 1) + NewPeers(Pass(pool, outcomes, k - 1).0, outcomes[k - 1])
  }

  lemma SyncSize<T>(pool: seq<T>, node: T, outcome: Outcome<T>)
    requires node in pool
    ensures |SyncWith(pool, node, outcome)| ==
            if outcome.Failed? then |pool| - 1 else |pool| + 1 + NewPeers(pool, outcome)
  {
    RemoveFirstTakesOneCopy(pool, node);
    if outcome.Answered? { LearnIndices([outcome.who] + pool, outcome.peers); }
  }

  /** While every outcome has been used: the distance from cursor to end, the size, and hence
      the exact moment the pass ends. */
  lemma {:induction false} Ledger<T>(pool: seq<T>, outcomes: seq<Outcome<T>>, k: nat)
    requires k <= |outcomes| && Pass(pool, outcomes, k).1 == k
    ensures var ((p, i), d, f) := (Pass(pool, outcomes, k), Fresh(pool, outcomes, k), Failures(outcomes, k));
      && |p| - i == |pool| + d - 2 * f
      && |p| == |pool| + d + (k - f) - f
      && (Ended(pool, outcomes, k) <==> 2 * f >= |pool| + d)
  {
    if k > 0 {
      var p := Pass(pool, outcomes, k - 1).0;
      VisitedBefore(pool, outcomes, k);
      EntryVisited(pool, outcomes, k - 1, p);
      Ledger(pool, outcomes, k - 1);
      SyncSize(p, p[k - 1], outcomes[k - 1]);
    }
  }

  lemma VisitedBefore<T>(pool: seq<T>, outcomes: seq<Outcome<T>>, k: nat)
    requires 0 < k <= |outcomes| && Pass(pool, outcomes, k).1 == k
    ensures Pass(pool, outcomes, k - 1).1 == k - 1 < |Pass(pool, outcomes, k - 1).0|
  {
  }

  /** The pass stands where its last used outcome left it, and has ended there if any outcome
      was left unused. */
  lemma {:induction false} FinalIsUsed<T>(pool: seq<T>, outcomes: seq<Outcome<T>>, k: nat)
    requires k <= |outcomes|
    ensures var i := Pass(pool, outcomes, k).1;
      Pass(pool, outcomes, i) == Pass(pool, outcomes, k) && (i < k ==> Ended(pool, outcomes, i))
  {
    if k > 0 {
      FinalIsUsed(pool, outcomes, k - 1);
      OneVisit(pool, outcomes, k - 1);
    }
  }

  /** A pass that has used all of its first `k` outcomes had not ended anywhere before. */
  lemma {:induction false} UsedPrefix<T>(pool: seq<T>, outcomes: seq<Outcome<T>>, k: nat, j: nat)
    requires j <= k <= |outcomes| && Pass(pool, outcomes, k).1 == k
    ensures Pass(pool, outcomes, j).1 == j
    ensures j < k ==> !Ended(pool, outcomes, j)
  {
    if j < k {
      VisitedBefore(pool, outcomes, k);
      UsedPrefix(pool, outcomes, k - 1, j);
    }
  }

  /** For any trace the pass uses exactly the outcomes up to the first moment at which twice
      the failures reach the starting size plus everything learned. */
  lemma PassLength<T>(pool: seq<T>, outcomes: seq<Outcome<T>>)
    ensures var i := Pass(pool, outcomes, |outcomes|).1;
      && Pass(pool, outcomes, i) == Pass(pool, outcomes, |outcomes|)
      && (forall j :: 0 <= j < i ==> 2 * Failures(outcomes, j) < |pool| + Fresh(pool, outcomes, j))
      && (i < |outcomes| ==> 2 * Failures(outcomes, i) >= |pool| + Fresh(pool, outcomes, i))
  {
    var n := |outcomes|;
    var i := Pass(pool, outcomes, n).1;
    FinalIsUsed(pool, outcomes, n);
    forall j | 0 <= j < i
      ensures 2 * Failures(outcomes, j) < |pool| + Fresh(pool, outcomes, j)
    {
      UsedPrefix(pool, outcomes, i, j);
      Ledger(pool, outcomes, j);
    }
    Ledger(pool, outcomes, i);
  }

  lemma {:induction false} NoFailures<T>(outcomes: seq<Outcome<T>>, k: nat)
    requires k <= |outcomes| && Failed !in outcomes
    ensures Failures(outcomes, k) == 0
  {
    if k > 0 {
      NoFailures(outcomes, k - 1);
      assert outcomes[k - 1] in outcomes;
    }
  }

  /** As long as peers answer, a pass over a non-empty pool never ends. */
  lemma LivePeersKeepThePassGoing<T>(pool: seq<T>, outcomes: seq<Outcome<T>>)
    requires pool != [] && Failed !in outcomes
    ensures !Ended(pool, outcomes, |outcomes|) && Pass(pool, outcomes, |outcomes|).1 == |outcomes|
  {
    PassLength(pool, outcomes);
    NoFailures(outcomes, Pass(pool, outcomes, |outcomes|).1);
    Ledger(pool, outcomes, |outcomes|);
  }

  /** Where the cursor lands after a reply with `d` new peers: `d` entries further back, so a
      reply that brings nothing new makes the next visit the same entry again. */
  lemma NextVisit<T>(p: seq<T>, i: nat, who: T, peers: seq<T>)
    requires i < |p|
    ensures var q, d := SyncWith(p, p[i], Answered(who, peers)), NewPeers(p, Answered(who, peers));
      && i + 1 < |q|
      && (d <= i ==> q[i + 1] == p[i - d])
      && (d == i + 1 ==> q[i + 1] == who)
      && (d > i + 1 ==> q[i + 1] in peers && q[i + 1] !in p)
  {
    var pool := [who] + p;
    var q := Learn(pool, peers);
    LearnIndices(pool, peers);
    var d := |Elements(peers) - Elements(pool)|;
    if d <= i + 1 {
      var j := i + 1 - d;
      assert q[d + j] == pool[j];
    } else {
      assert q[i + 1] in peers && q[i + 1] !in pool;
      assert forall x :: x in p ==> x in pool;
    }
  }

  /** A failure removes the visited record, or an earlier copy of it; either way everything
      behind the cursor moves up, so the next visit skips the entry behind the visited one. */
  lemma NextVisitAfterFailure<T>(p: seq<T>, i: nat)
    requires i + 2 < |p|
    ensures var q := SyncWith(p, p[i], Failed); i + 1 < |q| && q[i + 1] == p[i + 2]
  {
    RemoveFirstIsRemoveAt(p, p[i]);
    FirstIndexBound(p, i);
    FirstIndexFinds(p, p[i]);
  }

  /** Once a peer has nothing new to tell, the pass asks it again and again: as long as the
      replies bring no new peers, every visit is to the record visited first. */
  lemma {:induction false} NothingNewKeepsTheVisit<T>(pool: seq<T>, outcomes: seq<Outcome<T>>, k: nat, m: nat)
    requires k <= m <= |outcomes| && Pass(pool, outcomes, k).1 == k && !Ended(pool, outcomes, k)
    requires forall j :: k <= j < m ==> NothingNew(pool, outcomes, j)
    ensures Pass(pool, outcomes, m).1 == m && !Ended(pool, outcomes, m)
    ensures Pass(pool, outcomes, m).0[m] == Pass(pool, outcomes, k).0[k]
  {
    if k < m {
      NothingNewKeepsTheVisit(pool, outcomes, k, m - 1);
      assert NothingNew(pool, outcomes, m - 1);
      var p := Pass(pool, outcomes, m - 1).0;
      EntryVisited(pool, outcomes, m - 1, p);
      SameVisit(p, m - 1, outcomes[m - 1]);
    }
  }

  lemma SameVisit<T>(p: seq<T>, i: nat, o: Outcome<T>)
    requires i < |p| && o.Answered? && NewPeers(p, o) == 0
    ensures var q := SyncWith(p, p[i], o); i + 1 < |q| && q[i + 1] == p[i]
  {
    NextVisit(p, i, o.who, o.peers);
  }

  /** Reply `j` comes, and adds no peer to the pool it meets. */
  predicate NothingNew<T(==)>(pool: seq<T>, outcomes: seq<Outcome<T>>, j: nat)
    requires j < |outcomes|
  {
    outcomes[j].Answered? && NewPeers(Pass(pool, outcomes, j).0, outcomes[j]) == 0
  }

  // ---- passes as runs of pool events ----

  /** The events of the first `k` outcomes, joined; a failure is none. */
  function EventLog<T>(outcomes: seq<Outcome<T>>, k: nat): seq<Event<T>>
    requires k <= |outcomes|
  {
    if k == 0 then []
    else
      EventLog(outcomes, k - 1) +
      match outcomes[k - 1]
      case Failed => []
      case Answered(who, peers) => EventsOf(who, peers)
  }

  /** As long as peers answer, the pool of a pass is that of the run of events its replies
      stand for. */
  lemma {:induction false} PassIsARun<T>(pool: seq<T>, outcomes: seq<Outcome<T>>, k: nat)
    requires k <= |outcomes| && Failed !in outcomes[..k] && Pass(pool, outcomes, k).1 == k
    ensures Pass(pool, outcomes, k).0 == After(pool, EventLog(outcomes, k), |EventLog(outcomes, k)|)
  {
    if k > 0 {
      var p, o := Pass(pool, outcomes, k - 1).0, outcomes[k - 1];
      assert o in outcomes[..k] && outcomes[..k - 1] == outcomes[..k][..k - 1];
      VisitedBefore(pool, outcomes, k);
      PassIsARun(pool, outcomes, k - 1);
      EntryVisited(pool, outcomes, k - 1, p);
      AnswerExtendsRun(pool, EventLog(outcomes, k - 1), p[k - 1], o);
    }
  }

  lemma AnswerExtendsRun<T>(pool: seq<T>, log: seq<Event<T>>, node: T, o: Outcome<T>)
    requires o.Answered?
    ensures var more := log + EventsOf(o.who, o.peers);
      SyncWith(After(pool, log, |log|), node, o) == After(pool, more, |more|)
  {
    var p, events := After(pool, log, |log|), EventsOf(o.who, o.peers);
    AfterConcat(pool, log, events, |events|);
    AnswerIsARun(p, o.who, o.peers, |o.peers|);
    assert SyncWith(p, node, o) == LearnFirst([o.who] + p, o.peers, |o.peers|);
  }

  /** The ledger of copies for a pass whose peers all answer: one per reply that announces the
      record, and one more exactly when a relay brought it first. */
  lemma PassMultiplicity<T>(pool: seq<T>, outcomes: seq<Outcome<T>>, x: T)
    requires pool != [] && Failed !in outcomes
    ensures var log := EventLog(outcomes, |outcomes|);
      multiset(Pass(pool, outcomes, |outcomes|).0)[x]
         == multiset(pool)[x] + Announcements(log, x, |log|) + if RelayedFirst(pool, log, x, |log|) then 1 else 0
  {
    LivePeersKeepThePassGoing(pool, outcomes);
    assert outcomes[..|outcomes|] == outcomes;
    PassIsARun(pool, outcomes, |outcomes|);
    Multiplicity(pool, EventLog(outcomes, |outcomes|), x);
  }

  // ---- dead peers ----

  predicate AllFailed<T(==)>(outcomes: seq<Outcome<T>>) {
    forall o :: o in outcomes ==> o == Failed
  }

  /** The entries at odd 0-based positions among the first `2 * k`. */
  function Odd<T>(pool: seq<T>, k: nat): (r: seq<T>)
    requires 2 * k <= |pool|
    ensures |r| == k && forall j :: 0 <= j < k ==> r[j] == pool[2 * j + 1]
  {
    seq(k, j requires 0 <= j < k => pool[2 * j + 1])
  }

  /** Midway through a pass over dead peers: `kept` has been thinned, and the entries behind
      the cursor are untouched. Where a record occurs twice an earlier copy may go instead,
      which changes the order but not which records are left. */
  ghost predicate Thinned<T>(pool: seq<T>, k: nat, p: seq<T>, kept: seq<T>)
    requires 2 * k <= |pool|
  {
    && p == kept + pool[2 * k..] && |kept| == k
    && multiset(kept) == multiset(Odd(pool, k))
    && (Distinct(pool) ==> kept == Odd(pool, k))
  }

  lemma {:induction false} DeadPrefix<T>(pool: seq<T>, outcomes: seq<Outcome<T>>, k: nat) returns (kept: seq<T>)
    requires 2 * k <= |pool| && k <= |outcomes| && AllFailed(outcomes)
    ensures Pass(pool, outcomes, k).1 == k && Thinned(pool, k, Pass(pool, outcomes, k).0, kept)
  {
    kept := [];
    if k > 0 {
      var before := DeadPrefix(pool, outcomes, k - 1);
      var p := Pass(pool, outcomes, k - 1).0;
      assert outcomes[k - 1] in outcomes;
      EntryVisited(pool, outcomes, k - 1, p);
      kept := ThinOne(pool, k - 1, p, before);
    }
  }

  /** One more dead peer, with an entry left behind it. */
  lemma ThinOne<T>(pool: seq<T>, k: nat, p: seq<T>, before: seq<T>) returns (kept: seq<T>)
    requires 2 * k + 2 <= |pool| && Thinned(pool, k, p, before)
    ensures Thinned(pool, k + 1, RemoveFirst(p, p[k]), kept)
  {
    var x, y := pool[2 * k], pool[2 * k + 1];
    var rest := pool[2 * k + 2..];
    assert pool[2 * k..] == [x, y] + rest;
    assert p == before + [x] + ([y] + rest);
    var front := RemoveBehind(before, x, [y] + rest);
    kept := front + [y];
    assert front + ([y] + rest) == kept + rest;
    assert Odd(pool, k + 1) == Odd(pool, k) + [y];
    if Distinct(pool) {
      assert forall j :: 0 <= j < k ==> before[j] == pool[2 * j + 1];
    }
  }

  /** Removing a record's first copy from `before + [x] + rest` leaves `rest` alone. */
  lemma {:induction false} RemoveBehind<T>(before: seq<T>, x: T, rest: seq<T>)
    returns (front: seq<T>)
    ensures RemoveFirst(before + [x] + rest, x) == front + rest
    ensures |front| == |before| && multiset(front) == multiset(before)
    ensures x !in before ==> front == before
  {
    var p := before + [x] + rest;
    if before == [] {
      front := [];
      assert p[1..] == rest;
    } else {
      var tail := before[1..];
      assert before == [before[0]] + tail && p[1..] == tail + [x] + rest;
      if before[0] == x {
        front := tail + [x];
      } else {
        front := RemoveBehind(tail, x, rest);
        front := [before[0]] + front;
        assert front + rest == [before[0]] + (front[1..] + rest);
      }
    }
  }

  function Half(n: nat): nat { (n + 1) / 2 }

  /** What one pass leaves when no peer answers. */
  function DeadPass<T(==)>(pool: seq<T>): seq<T> {
    Pass(pool, Nobody(|pool|), |pool|).0
  }

  function Nobody<T>(n: nat): (r: seq<Outcome<T>>)
    ensures |r| == n && AllFailed(r)
  {
    seq(n, _ => Failed)
  }

  /** One pass over dead peers visits half of the pool, rounded up, and leaves exactly the
      entries at odd positions; with duplicates, the same records in some order. */
  lemma DeadPassThins<T>(pool: seq<T>, outcomes: seq<Outcome<T>>)
    requires AllFailed(outcomes) && |outcomes| >= Half(|pool|)
    ensures var (p, i) := Pass(pool, outcomes, |outcomes|);
      && i == Half(|pool|) && |p| == |pool| / 2
      && multiset(p) == multiset(Odd(pool, |pool| / 2))
      && (Distinct(pool) ==> p == Odd(pool, |pool| / 2))
  {
    DeadEnd(pool, outcomes);
    EndedIsFinal(pool, outcomes, Half(|pool|), |outcomes|);
  }

  lemma DeadEnd<T>(pool: seq<T>, outcomes: seq<Outcome<T>>)
    requires AllFailed(outcomes) && |outcomes| >= Half(|pool|)
    ensures var (p, i) := Pass(pool, outcomes, Half(|pool|));
      && i == Half(|pool|) && |p| == |pool| / 2
      && multiset(p) == multiset(Odd(pool, |pool| / 2))
      && (Distinct(pool) ==> p == Odd(pool, |pool| / 2))
  {
    var h := |pool| / 2;
    var kept := DeadPrefix(pool, outcomes, h);
    var p := Pass(pool, outcomes, h).0;
    if |pool| % 2 == 0 {
      assert Half(|pool|) == h;
      NoneLeft(pool, p, kept);
    } else {
      assert Half(|pool|) == h + 1;
      assert outcomes[h] in outcomes;
      LastOfOdd(pool, p, kept);
      OneVisit(pool, outcomes, h);
    }
  }

  /** The step the loop takes at cursor `i`. */
  lemma EntryVisited<T>(pool: seq<T>, outcomes: seq<Outcome<T>>, i: nat, p: seq<T>)
    requires i < |outcomes| && i < |p| && Pass(pool, outcomes, i) == (p, i)
    ensures Pass(pool, outcomes, i + 1) == (SyncWith(p, p[i], outcomes[i]), i + 1)
    ensures Visits(pool, outcomes, i + 1) == Visits(pool, outcomes, i) + [p[i]]
  {
  }

  lemma OneVisit<T>(pool: seq<T>, outcomes: seq<Outcome<T>>, k: nat)
    requires k < |outcomes|
    ensures Pass(pool, outcomes, k + 1) == Visit(Pass(pool, outcomes, k).0, Pass(pool, outcomes, k).1, outcomes[k])
  {
  }

  lemma NoneLeft<T>(pool: seq<T>, p: seq<T>, kept: seq<T>)
    requires |pool| % 2 == 0 && Thinned(pool, |pool| / 2, p, kept)
    ensures p == kept
  {
  }

  lemma LastOfOdd<T>(pool: seq<T>, p: seq<T>, kept: seq<T>)
    requires |pool| % 2 == 1 && Thinned(pool, |pool| / 2, p, kept)
    ensures |p| == |pool| / 2 + 1
    ensures var q := RemoveFirst(p, p[|pool| / 2]);
      && |q| == |pool| / 2
      && multiset(q) == multiset(Odd(pool, |pool| / 2))
      && (Distinct(pool) ==> q == Odd(pool, |pool| / 2))
  {
    var h := |pool| / 2;
    var x := pool[2 * h];
    assert pool[2 * h..] == [x];
    assert p == kept + [x] + [];
    var front := RemoveBehind(kept, x, []);
    assert front + [] == front;
    if Distinct(pool) {
      assert forall j :: 0 <= j < h ==> kept[j] == pool[2 * j + 1];
    }
  }

  /** A pass that has ended stays where it is, whatever outcomes would have come next. */
  lemma {:induction false} EndedIsFinal<T>(pool: seq<T>, outcomes: seq<Outcome<T>>, k: nat, m: nat)
    requires k <= m <= |outcomes| && Ended(pool, outcomes, k)
    ensures Pass(pool, outcomes, m) == Pass(pool, outcomes, k)
  {
    if k < m { EndedIsFinal(pool, outcomes, k, m - 1); }
  }

  lemma StoppedIsFinal<T>(pool: seq<T>, outcomes: seq<Outcome<T>>, i: nat, p: seq<T>)
    requires i <= |outcomes| && Pass(pool, outcomes, i) == (p, i) && (i < |outcomes| ==> i >= |p|)
    ensures Pass(pool, outcomes, |outcomes|) == (p, i)
    ensures Visits(pool, outcomes, |outcomes|) == Visits(pool, outcomes, i)
  {
    if i < |outcomes| {
      EndedIsFinal(pool, outcomes, i, |outcomes|);
      NoVisitAfterEnd(pool, outcomes, i, |outcomes|);
    }
  }

  lemma {:induction false} NoVisitAfterEnd<T>(pool: seq<T>, outcomes: seq<Outcome<T>>, k: nat, m: nat)
    requires k <= m <= |outcomes| && Ended(pool, outcomes, k)
    ensures Ended(pool, outcomes, m) && Visits(pool, outcomes, m) == Visits(pool, outcomes, k)
  {
    if k < m {
      NoVisitAfterEnd(pool, outcomes, k, m - 1);
      NoVisit(pool, outcomes, m - 1);
    }
  }

  lemma NoVisit<T>(pool: seq<T>, outcomes: seq<Outcome<T>>, k: nat)
    requires k < |outcomes| && Ended(pool, outcomes, k)
    ensures Ended(pool, outcomes, k + 1) && Visits(pool, outcomes, k + 1) == Visits(pool, outcomes, k)
  {
    OneVisit(pool, outcomes, k);
  }

  /** Visit `j` is to the entry at position `j` of the pool as it is by then. */
  lemma {:induction false} VisitIs<T>(pool: seq<T>, outcomes: seq<Outcome<T>>, k: nat, j: nat)
    requires j < k <= |outcomes| && Pass(pool, outcomes, k).1 == k
    ensures |Visits(pool, outcomes, k)| == k && j < |Pass(pool, outcomes, j).0|
    ensures Visits(pool, outcomes, k)[j] == Pass(pool, outcomes, j).0[j]
  {
    VisitedBefore(pool, outcomes, k);
    EntryVisited(pool, outcomes, k - 1, Pass(pool, outcomes, k - 1).0);
    if j < k - 1 { VisitIs(pool, outcomes, k - 1, j); }
  }

  function DeadPasses<T(==)>(pool: seq<T>, k: nat): seq<T>
    decreases k
  {
    if k == 0 then pool else DeadPasses(DeadPass(pool), k - 1)
  }

  function BitLength(n: nat): nat {
    if n == 0 then 0 else 1 + BitLength(n / 2)
  }

  lemma {:induction false} SurvivorCount<T>(pool: seq<T>, k: nat)
    ensures |DeadPasses(pool, k)| == |pool| / Pow(2, k)
    decreases k
  {
    if k > 0 {
      DeadPassThins(pool, Nobody(|pool|));
      SurvivorCount(DeadPass(pool), k - 1);
      HalfQuotient(|pool|, Pow(2, k - 1));
    }
  }

  /** Where the entry at position `j` stood `k` passes earlier. */
  function Origin(k: nat, j: nat): nat {
    if k == 0 then j else 2 * Origin(k - 1, j) + 1
  }

  lemma {:induction false} OriginIs(k: nat, j: nat)
    ensures Origin(k, j) + 1 == (j + 1) * Pow(2, k)
  {
    if k > 0 { OriginIs(k - 1, j); }
  }

  lemma {:induction false} SurvivorAt<T>(pool: seq<T>, k: nat, j: nat)
    requires Distinct(pool) && j < |DeadPasses(pool, k)|
    ensures Origin(k, j) < |pool| && DeadPasses(pool, k)[j] == pool[Origin(k, j)]
    decreases k
  {
    if k > 0 {
      DeadPassIs(pool);
      SurvivorAt(DeadPass(pool), k - 1, j);
    }
  }

  lemma DeadPassIs<T>(pool: seq<T>)
    requires Distinct(pool)
    ensures var p := DeadPass(pool);
      Distinct(p) && |p| == |pool| / 2 && forall j :: 0 <= j < |p| ==> p[j] == pool[2 * j + 1]
  {
    DeadPassThins(pool, Nobody(|pool|));
  }

  /** Survivor `j` of `k` passes stood at a position whose 1-based index is a multiple of 2^k. */
  predicate SurvivesFrom<T(==)>(pool: seq<T>, k: nat, j: nat)
    requires j < |DeadPasses(pool, k)|
  {
    && Origin(k, j) < |pool| && DeadPasses(pool, k)[j] == pool[Origin(k, j)]
    && Origin(k, j) + 1 == (j + 1) * Pow(2, k)
  }

  /** After `k` passes the survivors are exactly the entries whose 1-based starting position is
      a multiple of 2^k. */
  lemma Survivors<T>(pool: seq<T>, k: nat)
    requires Distinct(pool)
    ensures |DeadPasses(pool, k)| == |pool| / Pow(2, k)
    ensures forall j :: 0 <= j < |DeadPasses(pool, k)| ==> SurvivesFrom(pool, k, j)
  {
    SurvivorCount(pool, k);
    forall j | 0 <= j < |DeadPasses(pool, k)|
      ensures SurvivesFrom(pool, k, j)
    {
      SurvivorAt(pool, k, j);
      OriginIs(k, j);
    }
  }

  /** The dead pool, duplicates or not, is empty after exactly bit-length many passes. */
  lemma {:induction false} EmptyAfterBitLength<T>(pool: seq<T>, k: nat)
    ensures DeadPasses(pool, k) == [] <==> k >= BitLength(|pool|)
    decreases k
  {
    if k > 0 {
      DeadPassThins(pool, Nobody(|pool|));
      EmptyAfterBitLength(DeadPass(pool), k - 1);
    }
  }
}
