/** What a run of announcements does to the node pool and the file pool. */
module Pools {
  import opened CStrings
  import opened Options
  import opened Sequences
  import opened Wire

  function Elements<T>(s: seq<T>): set<T> {
    set x | x in s
  }

  // ---- learning records one by one ----

  function LearnOne<T(==)>(pool: seq<T>, x: T): seq<T> {
    if x in pool then pool else [x] + pool
  }

  /** Inserts each of the first `k` of `xs` in turn at the head, unless the pool holds an equal
      record. */
  function LearnFirst<T(==)>(pool: seq<T>, xs: seq<T>, k: nat): seq<T>
    requires k <= |xs|
  {
    if k == 0 then pool else LearnOne(LearnFirst(pool, xs, k - 1), xs[k - 1])
  }

  function Learn<T(==)>(pool: seq<T>, xs: seq<T>): seq<T> {
    LearnFirst(pool, xs, |xs|)
  }

  /** `xs[i]` is new: neither in the pool at the start nor earlier in `xs`. */
  predicate NewAt<T(==)>(pool: seq<T>, xs: seq<T>, i: int)
    requires 0 <= i < |xs|
  {
    xs[i] !in pool && xs[i] !in xs[..i]
  }

  /** The new ones among the first `k` of `xs`, in order. */
  function FirstTime<T(==)>(pool: seq<T>, xs: seq<T>, k: nat): seq<T>
    requires k <= |xs|
  {
    if k == 0 then []
    else if NewAt(pool, xs, k - 1) then FirstTime(pool, xs, k - 1) + [xs[k - 1]]
    else FirstTime(pool, xs, k - 1)
  }

  lemma {:induction false} FirstTimeElements<T>(pool: seq<T>, xs: seq<T>, k: nat)
    requires k <= |xs|
    ensures Distinct(FirstTime(pool, xs, k))
    ensures forall x :: x in FirstTime(pool, xs, k) ==> x in xs[..k] && x !in pool
    ensures forall x :: x in xs[..k] && x !in pool ==> x in FirstTime(pool, xs, k)
    ensures |FirstTime(pool, xs, k)| == |Elements(xs[..k]) - Elements(pool)|
  {
    if k > 0 {
      var before, x := xs[..k - 1], xs[k - 1];
      assert xs[..k] == before + [x];
      FirstTimeElements(pool, xs, k - 1);
      NewElements(pool, before, x);
    }
  }

  lemma NewElements<T>(pool: seq<T>, before: seq<T>, x: T)
    ensures Elements(before + [x]) - Elements(pool) ==
            (Elements(before) - Elements(pool)) + if x in pool || x in before then {} else {x}
  {
  }

  /** New records end up in front of the old pool, the latest first. */
  lemma {:induction false} LearnShape<T>(pool: seq<T>, xs: seq<T>, k: nat)
    requires k <= |xs|
    ensures LearnFirst(pool, xs, k) == Reversed(FirstTime(pool, xs, k)) + pool
  {
    if k > 0 {
      var f, x := FirstTime(pool, xs, k - 1), xs[k - 1];
      LearnShape(pool, xs, k - 1);
      FirstTimeElements(pool, xs, k - 1);
      assert NewAt(pool, xs, k - 1) == (x !in pool && x !in f);
      LearnOneShape(f, x, pool);
    }
  }

  lemma LearnOneShape<T>(f: seq<T>, x: T, pool: seq<T>)
    ensures x !in pool && x !in f ==> LearnOne(Reversed(f) + pool, x) == Reversed(f + [x]) + pool
    ensures x in pool || x in f ==> LearnOne(Reversed(f) + pool, x) == Reversed(f) + pool
  {
    ReversedElements(f);
    assert Reversed(f + [x]) + pool == [x] + (Reversed(f) + pool);
  }

  /** The shape of the whole: as many new records as there are new elements, then the old pool
      moved back by that many places. */
  lemma LearnIndices<T>(pool: seq<T>, xs: seq<T>)
    ensures var d := |Elements(xs) - Elements(pool)|;
      && |Learn(pool, xs)| == |pool| + d
      && (forall j :: 0 <= j < d ==> Learn(pool, xs)[j] in xs && Learn(pool, xs)[j] !in pool)
      && (forall j :: 0 <= j < |pool| ==> Learn(pool, xs)[d + j] == pool[j])
  {
    var f := FirstTime(pool, xs, |xs|);
    LearnShape(pool, xs, |xs|);
    FirstTimeElements(pool, xs, |xs|);
    assert xs[..|xs|] == xs;
    LedBy(f, pool, xs);
  }

  lemma LedBy<T>(f: seq<T>, pool: seq<T>, xs: seq<T>)
    requires forall x :: x in f ==> x in xs && x !in pool
    ensures forall j :: 0 <= j < |f| ==> (Reversed(f) + pool)[j] in xs && (Reversed(f) + pool)[j] !in pool
    ensures forall j :: 0 <= j < |pool| ==> (Reversed(f) + pool)[|f| + j] == pool[j]
  {
  }

  lemma LearnElements<T>(pool: seq<T>, xs: seq<T>, k: nat)
    requires k <= |xs|
    ensures forall x :: x in LearnFirst(pool, xs, k) ==> x in pool || x in xs[..k]
    ensures forall x :: x in pool || x in xs[..k] ==> x in LearnFirst(pool, xs, k)
    ensures Distinct(pool) ==> Distinct(LearnFirst(pool, xs, k))
  {
  }

  lemma {:induction false} LearnPrefix<T>(pool: seq<T>, xs: seq<T>, ys: seq<T>, k: nat)
    requires k <= |xs|
    ensures LearnFirst(pool, xs + ys, k) == LearnFirst(pool, xs, k)
  {
    if k > 0 { LearnPrefix(pool, xs, ys, k - 1); }
  }

  lemma {:induction false} LearnConcat<T>(pool: seq<T>, xs: seq<T>, ys: seq<T>, k: nat)
    requires k <= |ys|
    ensures LearnFirst(Learn(pool, xs), ys, k) == LearnFirst(pool, xs + ys, |xs| + k)
  {
    if k == 0 { LearnPrefix(pool, xs, ys, |xs|); } else { LearnConcat(pool, xs, ys, k - 1); }
  }

  lemma LearnAppend<T>(pool: seq<T>, xs: seq<T>, ys: seq<T>)
    ensures Learn(Learn(pool, xs), ys) == Learn(pool, xs + ys)
  {
    LearnConcat(pool, xs, ys, |ys|);
  }

  // ---- the file pool ----

  /** The records an announcement stands for. */
  function FilesOf(msg: Announcement): (r: seq<NodeFile>)
    ensures |r| == |msg.files| && forall i :: 0 <= i < |r| ==> r[i] == NodeFile(msg.files[i], msg.node)
  {
    seq(|msg.files|, i requires 0 <= i < |msg.files| => NodeFile(msg.files[i], msg.node))
  }

  /** The file pool after the first `k` of a run of node messages. */
  function LearnFiles(pool: seq<NodeFile>, msgs: seq<Announcement>, k: nat): seq<NodeFile>
    requires k <= |msgs|
  {
    if k == 0 then pool else Learn(LearnFiles(pool, msgs, k - 1), FilesOf(msgs[k - 1]))
  }

  /** The records of the first `k` messages, in the order they were read. */
  function FileLog(msgs: seq<Announcement>, k: nat): seq<NodeFile>
    requires k <= |msgs|
  {
    if k == 0 then [] else FileLog(msgs, k - 1) + FilesOf(msgs[k - 1])
  }

  lemma {:induction false} LearnFilesIsLearn(pool: seq<NodeFile>, msgs: seq<Announcement>, k: nat)
    requires k <= |msgs|
    ensures LearnFiles(pool, msgs, k) == Learn(pool, FileLog(msgs, k))
  {
    if k > 0 {
      LearnFilesIsLearn(pool, msgs, k - 1);
      LearnAppend(pool, FileLog(msgs, k - 1), FilesOf(msgs[k - 1]));
    }
  }

  /** A run of node messages leaves the reversed list of first-time files before the old pool,
      and never two equal records. */
  lemma FilePoolAfterRun(pool: seq<NodeFile>, msgs: seq<Announcement>)
    ensures var log := FileLog(msgs, |msgs|);
      && LearnFiles(pool, msgs, |msgs|) == Reversed(FirstTime(pool, log, |log|)) + pool
      && (Distinct(pool) ==> Distinct(LearnFiles(pool, msgs, |msgs|)))
  {
    var log := FileLog(msgs, |msgs|);
    LearnFilesIsLearn(pool, msgs, |msgs|);
    LearnShape(pool, log, |log|);
    LearnElements(pool, log, |log|);
  }

  /** The first pool entry with the given name: whom the file is downloaded from. */
  function Holder(pool: seq<NodeFile>, name: CString): Option<NodeFile> {
    if pool == [] then None
    else if pool[0].name == name then Some(pool[0])
    else Holder(pool[1..], name)
  }

  lemma {:induction false} HolderIsFirst(pool: seq<NodeFile>, name: CString, i: nat)
    requires i < |pool| && pool[i].name == name && forall j :: 0 <= j < i ==> pool[j].name != name
    ensures Holder(pool, name) == Some(pool[i])
  {
    if i > 0 { HolderIsFirst(pool[1..], name, i - 1); }
  }

  lemma {:induction false} HolderMissing(pool: seq<NodeFile>, name: CString)
    requires forall j :: 0 <= j < |pool| ==> pool[j].name != name
    ensures Holder(pool, name) == None
  {
    if pool != [] { HolderMissing(pool[1..], name); }
  }

  lemma HolderAfterOne(pool: seq<NodeFile>, f: NodeFile, name: CString)
    ensures Holder(LearnOne(pool, f), name) == if f !in pool && f.name == name then Some(f) else Holder(pool, name)
  {
  }

  lemma NewIsUnknown(pool: seq<NodeFile>, log: seq<NodeFile>, k: nat)
    requires k < |log|
    ensures NewAt(pool, log, k) <==> log[k] !in LearnFirst(pool, log, k)
  {
    LearnElements(pool, log, k);
  }

  /** Which entries of a log taught the pool something. */
  function Learned(pool: seq<NodeFile>, log: seq<NodeFile>): (r: seq<bool>)
    ensures |r| == |log| && forall i :: 0 <= i < |log| ==> r[i] == NewAt(pool, log, i)
  {
    seq(|log|, i requires 0 <= i < |log| => NewAt(pool, log, i))
  }

  /** The latest of the first `k` log entries that taught the pool a holder of `name`, or -1. */
  function LastLearned(learned: seq<bool>, log: seq<NodeFile>, name: CString, k: nat): (r: int)
    requires k <= |log| == |learned|
    ensures -1 <= r < k
    ensures r >= 0 ==> log[r].name == name && learned[r]
    ensures forall j :: r < j < k && learned[j] ==> log[j].name != name
  {
    if k == 0 then -1
    else if learned[k - 1] && log[k - 1].name == name then k - 1
    else LastLearned(learned, log, name, k - 1)
  }

  /** Log entry `i` takes over as the holder of `name` when it taught the pool one. */
  predicate TakesOver(learned: seq<bool>, log: seq<NodeFile>, name: CString, holders: seq<Option<NodeFile>>, i: nat)
    requires i < |log| == |learned| && |holders| == |log| + 1
  {
    holders[i + 1] == if learned[i] && log[i].name == name then Some(log[i]) else holders[i]
  }

  lemma {:induction false} LastWins(learned: seq<bool>, log: seq<NodeFile>, name: CString,
                                    holders: seq<Option<NodeFile>>, k: nat)
    requires k <= |log| == |learned| && |holders| == |log| + 1
    requires forall i :: 0 <= i < |log| ==> TakesOver(learned, log, name, holders, i)
    ensures var last := LastLearned(learned, log, name, k);
      holders[k] == if last < 0 then holders[0] else Some(log[last])
  {
    if k > 0 {
      LastWins(learned, log, name, holders, k - 1);
      assert TakesOver(learned, log, name, holders, k - 1);
    }
  }

  /** The holders of `name` as the log is read. */
  function Holders(pool: seq<NodeFile>, log: seq<NodeFile>, name: CString): (r: seq<Option<NodeFile>>)
    ensures |r| == |log| + 1 && forall i :: 0 <= i <= |log| ==> r[i] == Holder(LearnFirst(pool, log, i), name)
  {
    seq(|log| + 1, i requires 0 <= i <= |log| => Holder(LearnFirst(pool, log, i), name))
  }

  lemma HolderStep(pool: seq<NodeFile>, log: seq<NodeFile>, name: CString, i: nat)
    requires i < |log|
    ensures TakesOver(Learned(pool, log), log, name, Holders(pool, log, name), i)
  {
    var was := LearnFirst(pool, log, i);
    NewIsUnknown(pool, log, i);
    HolderAfterOne(was, log[i], name);
    assert LearnFirst(pool, log, i + 1) == LearnOne(was, log[i]);
  }

  /** A file is fetched from its most recently learned holder. Being announced again does not
      move a holder forward, and with no holder learned the old pool decides. */
  lemma MostRecentHolder(pool: seq<NodeFile>, log: seq<NodeFile>, name: CString, k: nat)
    requires k <= |log|
    ensures var last := LastLearned(Learned(pool, log), log, name, k);
      Holder(LearnFirst(pool, log, k), name) == if last < 0 then Holder(pool, name) else Some(log[last])
  {
    var holders := Holders(pool, log, name);
    forall i | 0 <= i < |log|
      ensures TakesOver(Learned(pool, log), log, name, holders, i)
    {
      HolderStep(pool, log, name, i);
    }
    LastWins(Learned(pool, log), log, name, holders, k);
  }

  // ---- the node pool ----

  /** The two ways a record reaches the node pool. */
  datatype Event<T> = Announced(node: T) | Relayed(node: T)

  function AfterOne<T(==)>(pool: seq<T>, event: Event<T>): seq<T> {
    match event
    case Announced(n) => [n] + pool
    case Relayed(n) => LearnOne(pool, n)
  }

  /** The pool after the first `k` events. */
  function After<T(==)>(pool: seq<T>, events: seq<Event<T>>, k: nat): seq<T>
    requires k <= |events|
  {
    if k == 0 then pool else AfterOne(After(pool, events, k - 1), events[k - 1])
  }

  function Announcements<T(==)>(events: seq<Event<T>>, x: T, k: nat): nat
    requires k <= |events|
  {
    if k == 0 then 0 else Announcements(events, x, k - 1) + if events[k - 1] == Announced(x) then 1 else 0
  }

  /** `x` reached the pool through a relay: it was not there before, and no earlier message
      announced it. */
  ghost predicate RelayedFirst<T>(pool: seq<T>, events: seq<Event<T>>, x: T, k: nat)
    requires k <= |events|
  {
    x !in pool && exists i :: 0 <= i < k && events[i] == Relayed(x) && Announced(x) !in events[..i]
  }

  lemma {:induction false} PoolMembers<T>(pool: seq<T>, events: seq<Event<T>>, x: T, k: nat)
    requires k <= |events|
    ensures x in After(pool, events, k) <==> x in pool || Announced(x) in events[..k] || Relayed(x) in events[..k]
  {
    if k > 0 {
      PoolMembers(pool, events, x, k - 1);
      assert events[..k] == events[..k - 1] + [events[k - 1]];
    }
  }

  /** The copies of `x` that relays brought in. */
  function RelayCopies<T(==)>(pool: seq<T>, events: seq<Event<T>>, x: T, k: nat): nat
    requires k <= |events|
  {
    if k == 0 then 0
    else
      RelayCopies(pool, events, x, k - 1) +
      if events[k - 1] == Relayed(x) && x !in After(pool, events, k - 1) then 1 else 0
  }

  lemma {:induction false} CopiesCount<T>(pool: seq<T>, events: seq<Event<T>>, x: T, k: nat)
    requires k <= |events|
    ensures multiset(After(pool, events, k))[x]
         == multiset(pool)[x] + Announcements(events, x, k) + RelayCopies(pool, events, x, k)
  {
    if k > 0 {
      CopiesCount(pool, events, x, k - 1);
      CopiesAfterOne(After(pool, events, k - 1), events[k - 1], x);
    }
  }

  lemma {:induction false} OneRelayCopy<T>(pool: seq<T>, events: seq<Event<T>>, x: T, k: nat)
    requires k <= |events|
    ensures RelayCopies(pool, events, x, k) == if RelayedFirst(pool, events, x, k) then 1 else 0
  {
    if k > 0 {
      OneRelayCopy(pool, events, x, k - 1);
      PoolMembers(pool, events, x, k - 1);
      RelayedFirstStep(pool, events, x, k - 1);
    }
  }

  /** Without removals a record's copies are its copies at the start, one per message that
      announced it, and one more exactly when a relay brought it first. */
  lemma Multiplicity<T>(pool: seq<T>, events: seq<Event<T>>, x: T)
    ensures multiset(After(pool, events, |events|))[x]
         == multiset(pool)[x] + Announcements(events, x, |events|)
            + if RelayedFirst(pool, events, x, |events|) then 1 else 0
  {
    CopiesCount(pool, events, x, |events|);
    OneRelayCopy(pool, events, x, |events|);
  }

  lemma CopiesAfterOne<T>(pool: seq<T>, event: Event<T>, x: T)
    ensures multiset(AfterOne(pool, event))[x]
         == multiset(pool)[x] + if event == Announced(x) || (event == Relayed(x) && x !in pool) then 1 else 0
  {
  }

  lemma {:induction false} RelayedFirstStep<T>(pool: seq<T>, events: seq<Event<T>>, x: T, k: nat)
    requires k < |events|
    ensures RelayedFirst(pool, events, x, k + 1) <==>
            (RelayedFirst(pool, events, x, k)
             || (events[k] == Relayed(x) && x !in pool && Announced(x) !in events[..k] && Relayed(x) !in events[..k]))
  {
  }

  lemma {:induction false} AfterPrefix<T>(pool: seq<T>, a: seq<Event<T>>, b: seq<Event<T>>, k: nat)
    requires k <= |a|
    ensures After(pool, a + b, k) == After(pool, a, k)
  {
    if k > 0 { AfterPrefix(pool, a, b, k - 1); }
  }

  lemma {:induction false} AfterConcat<T>(pool: seq<T>, a: seq<Event<T>>, b: seq<Event<T>>, k: nat)
    requires k <= |b|
    ensures After(pool, a + b, |a| + k) == After(After(pool, a, |a|), b, k)
  {
    if k == 0 { AfterPrefix(pool, a, b, |a|); } else { AfterConcat(pool, a, b, k - 1); }
  }

  // ---- one sync ----

  /** What asking one node to sync comes to. A reply whose peer count never arrives carries
      no peers. */
  datatype Outcome<T> = Failed | Answered(who: T, peers: seq<T>)

  function SyncWith<T(==)>(pool: seq<T>, node: T, outcome: Outcome<T>): seq<T> {
    match outcome
    case Failed => RemoveFirst(pool, node)
    case Answered(who, peers) => Learn([who] + pool, peers)
  }

  /** How many records the peers of a reply add. */
  function NewPeers<T(==)>(pool: seq<T>, outcome: Outcome<T>): nat {
    match outcome
    case Failed => 0
    case Answered(who, peers) => |Elements(peers) - Elements([who] + pool)|
  }

  /** A reply as a run of pool events. */
  function EventsOf<T>(who: T, peers: seq<T>): (r: seq<Event<T>>)
    ensures |r| == |peers| + 1 && r[0] == Announced(who)
    ensures forall i :: 0 <= i < |peers| ==> r[i + 1] == Relayed(peers[i])
  {
    [Announced(who)] + seq(|peers|, i requires 0 <= i < |peers| => Relayed(peers[i]))
  }

  lemma {:induction false} AnswerIsARun<T>(pool: seq<T>, who: T, peers: seq<T>, k: nat)
    requires k <= |peers|
    ensures LearnFirst([who] + pool, peers, k) == After(pool, EventsOf(who, peers), k + 1)
  {
    if k > 0 {
      AnswerIsARun(pool, who, peers, k - 1);
    } else {
      assert After(pool, EventsOf(who, peers), 0) == pool;
    }
  }
}
