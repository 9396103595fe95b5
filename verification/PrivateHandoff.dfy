/** Lab 5: each datagram is handed to its own thread in its own heap record. The receive loop
    and the jobs interleave in any way; the allocator may hand out a freed record again. */
module PrivateHandoff {
  import opened Options

  type Sender = nat
  type Pointer = nat

  datatype MainStep = Receiving | Allocating | Filling | Spawning

  datatype JobStep = Started | Copied | Freed | Done

  /** A thread: the record it was given, and its own copy of what the record held. */
  datatype Job = Job(args: Pointer, conn: Option<Sender>, step: JobStep)

  datatype Reply = Reply(job: nat, dest: Sender)

  /** `received` logs the datagrams, with None for a failed receive, which leaves the address
      variable as it was. `misuse` is set by reading or freeing a record that is not allocated. */
  datatype Server = Server(
    main: MainStep, addrClient: Sender, conn: Pointer,
    heap: map<Pointer, Option<Sender>>, jobs: seq<Job>,
    received: seq<Option<Sender>>, replies: seq<Reply>, allocs: nat, frees: nat, misuse: bool)

  const IDLE: Server := Server(Receiving, 0, 0, map[], [], [], [], 0, 0, false)

  datatype Event =
    | Receive(sender: Option<Sender>) | Allocate(p: Pointer) | Fill | Spawn
    | Copy(job: nat) | Free(job: nat) | SendReply(job: nat, ok: bool)

  /** Events that cannot happen in a state leave it as it is. */
  function Next(s: Server, e: Event): Server {
    match e
    case Receive(a) =>
      if s.main == Receiving then
        s.(main := Allocating, addrClient := if a.Some? then a.value else s.addrClient, received := s.received + [a])
      else s
    case Allocate(p) =>
      if s.main == Allocating && p !in s.heap
      then s.(main := Filling, conn := p, heap := s.heap[p := None], allocs := s.allocs + 1) else s
    case Fill =>
      if s.main == Filling then s.(main := Spawning, heap := s.heap[s.conn := Some(s.addrClient)]) else s
    case Spawn =>
      if s.main == Spawning then s.(main := Receiving, jobs := s.jobs + [Job(s.conn, None, Started)]) else s
    case Copy(j) =>
      if j < |s.jobs| && s.jobs[j].step == Started then
        var job := s.jobs[j];
        if job.args in s.heap then s.(jobs := s.jobs[j := job.(conn := s.heap[job.args], step := Copied)])
        else s.(misuse := true)
      else s
    case Free(j) =>
      if j < |s.jobs| && s.jobs[j].step == Copied then
        var job := s.jobs[j];
        if job.args in s.heap
        then s.(jobs := s.jobs[j := job.(step := Freed)], heap := s.heap - {job.args}, frees := s.frees + 1)
        else s.(misuse := true)
      else s
    case SendReply(j, ok) =>
      if j < |s.jobs| && s.jobs[j].step == Freed then
        var job := s.jobs[j];
        var now := s.(jobs := s.jobs[j := job.(step := Done)]);
        if job.conn == None then now.(misuse := true)
        else if ok then now.(replies := s.replies + [Reply(j, job.conn.value)]) else now
      else s
  }

  function After(events: seq<Event>, k: nat): Server
    requires k <= |events|
  {
    if k == 0 then IDLE else Next(After(events, k - 1), events[k - 1])
  }

  // ---- the invariant ----

  predicate Holding(job: Job) {
    job.step == Started || job.step == Copied
  }

  /** The record the receive loop has allocated but not yet handed over. */
  predicate Pending(s: Server) {
    s.main == Filling || s.main == Spawning
  }

  /** A record belongs to one job or to the receive loop, and nothing else is allocated. */
  ghost predicate Owned(s: Server) {
    && (forall j :: 0 <= j < |s.jobs| && Holding(s.jobs[j]) ==> s.jobs[j].args in s.heap)
    && (forall i, j :: 0 <= i < j < |s.jobs| && Holding(s.jobs[i]) && Holding(s.jobs[j]) ==>
          s.jobs[i].args != s.jobs[j].args)
    && (Pending(s) ==> s.conn in s.heap)
    && (forall j :: 0 <= j < |s.jobs| && Holding(s.jobs[j]) && Pending(s) ==> s.jobs[j].args != s.conn)
    && (forall p :: p in s.heap ==> Holder(s, p))
  }

  ghost predicate Holder(s: Server, p: Pointer) {
    (Pending(s) && p == s.conn) || exists j :: 0 <= j < |s.jobs| && Holding(s.jobs[j]) && s.jobs[j].args == p
  }

  /** Whose address the first `n` receives leave behind; it is zero at the start. */
  function LastSender(received: seq<Option<Sender>>, n: nat): Sender
    requires n <= |received|
  {
    if n == 0 then 0
    else if received[n - 1].Some? then received[n - 1].value
    else LastSender(received, n - 1)
  }

  /** Job j works for the address left by the j-th receive, wherever it is in its work. */
  ghost predicate Paired(s: Server) {
    && |s.received| == |s.jobs| + (if s.main == Receiving then 0 else 1)
    && s.addrClient == LastSender(s.received, |s.received|)
    && (s.main == Spawning ==> s.conn in s.heap && s.heap[s.conn] == Some(s.addrClient))
    && (forall j :: 0 <= j < |s.jobs| ==> JobPaired(s, j))
  }

  ghost predicate JobPaired(s: Server, j: nat)
    requires j < |s.jobs| <= |s.received|
  {
    var job := s.jobs[j];
    && (Holding(job) ==> job.args in s.heap && s.heap[job.args] == Some(LastSender(s.received, j + 1)))
    && (job.step != Started ==> job.conn == Some(LastSender(s.received, j + 1)))
  }

  /** At most one reply a job, and only once it is done. */
  ghost predicate Answered(s: Server) {
    && (forall i :: 0 <= i < |s.replies| ==>
          var r := s.replies[i];
          r.job < |s.jobs| <= |s.received| && s.jobs[r.job].step == Done && r.dest == LastSender(s.received, r.job + 1))
    && (forall i, j :: 0 <= i < j < |s.replies| ==> s.replies[i].job != s.replies[j].job)
  }

  function PastFree(jobs: seq<Job>): nat {
    if jobs == [] then 0
    else PastFree(jobs[..|jobs| - 1]) + if Holding(jobs[|jobs| - 1]) then 0 else 1
  }

  /** Every allocation is a job's or pending, and every free is some job's one free. */
  ghost predicate Balanced(s: Server) {
    && s.allocs == |s.jobs| + (if Pending(s) then 1 else 0)
    && s.frees == PastFree(s.jobs)
    && |s.heap.Keys| == s.allocs - s.frees
  }

  ghost predicate Sound(s: Server) {
    !s.misuse && Owned(s) && Paired(s) && Answered(s) && Balanced(s)
  }

  lemma {:induction false} PastFreeUpdate(jobs: seq<Job>, j: nat, job: Job)
    requires j < |jobs|
    ensures PastFree(jobs[j := job]) ==
            PastFree(jobs) + (if Holding(jobs[j]) then 1 else 0) - (if Holding(job) then 1 else 0)
  {
    var n := |jobs| - 1;
    if j < n {
      assert jobs[j := job][..n] == jobs[..n][j := job];
      PastFreeUpdate(jobs[..n], j, job);
    } else {
      assert jobs[j := job][..n] == jobs[..n];
    }
  }

  /** The job an event is about, when the event can happen. */
  predicate Acts(s: Server, e: Event) {
    match e
    case Copy(j) => j < |s.jobs| && s.jobs[j].step == Started
    case Free(j) => j < |s.jobs| && s.jobs[j].step == Copied
    case SendReply(j, _) => j < |s.jobs| && s.jobs[j].step == Freed
    case _ => false
  }

  /** A job's event touches that job alone, and of the heap at most the job's own record. */
  lemma ActsOnOneJob(s: Server, e: Event)
    requires Acts(s, e)
    ensures var t := Next(s, e);
      && t.jobs == s.jobs[e.job := t.jobs[e.job]]
      && (forall j :: 0 <= j < |s.jobs| && j != e.job ==> t.jobs[j] == s.jobs[j])
      && t.jobs[e.job].args == s.jobs[e.job].args
      && t.main == s.main && t.conn == s.conn && t.addrClient == s.addrClient && t.received == s.received
      && (!e.Free? ==> t.heap == s.heap && Holding(t.jobs[e.job]) == Holding(s.jobs[e.job]))
  {
  }

  lemma NoMisuse(s: Server, e: Event)
    requires Sound(s)
    ensures !Next(s, e).misuse
  {
    if Acts(s, e) { assert JobPaired(s, e.job); }
  }

  lemma SpawnedJobs(s: Server)
    requires s.main == Spawning
    ensures var t := Next(s, Spawn);
      |t.jobs| == |s.jobs| + 1 && t.jobs[|s.jobs|] == Job(s.conn, None, Started)
      && forall j :: 0 <= j < |s.jobs| ==> t.jobs[j] == s.jobs[j]
  {
  }

  lemma HoldersStay(s: Server, t: Server)
    requires Pending(s) ==> Pending(t) && t.conn == s.conn
    requires |s.jobs| <= |t.jobs|
    requires forall j :: 0 <= j < |s.jobs| && Holding(s.jobs[j]) ==>
      Holding(t.jobs[j]) && t.jobs[j].args == s.jobs[j].args
    ensures forall p :: Holder(s, p) ==> Holder(t, p)
  {
  }

  lemma OwnedAfterSpawn(s: Server)
    requires Owned(s) && s.main == Spawning
    ensures Owned(Next(s, Spawn))
  {
    var t := Next(s, Spawn);
    SpawnedJobs(s);
    forall p | p in t.heap
      ensures Holder(t, p)
    {
      if p == s.conn {
        assert Holding(t.jobs[|s.jobs|]) && t.jobs[|s.jobs|].args == p;
      } else {
        assert Holder(s, p);
        var j :| 0 <= j < |s.jobs| && Holding(s.jobs[j]) && s.jobs[j].args == p;
        assert Holding(t.jobs[j]) && t.jobs[j].args == p;
      }
    }
  }

  lemma OwnedByMain(s: Server, e: Event)
    requires Owned(s) && !Acts(s, e)
    ensures Owned(Next(s, e))
  {
    if e.Spawn? && s.main == Spawning { OwnedAfterSpawn(s); } else { HoldersStay(s, Next(s, e)); }
  }

  lemma OwnedAfterFree(s: Server, j: nat)
    requires Owned(s) && j < |s.jobs| && s.jobs[j].step == Copied
    ensures Owned(Next(s, Free(j)))
  {
    var t := Next(s, Free(j));
    var x := s.jobs[j].args;
    assert Holding(s.jobs[j]) && x in s.heap;
    assert forall i :: 0 <= i < |s.jobs| && i != j ==> t.jobs[i] == s.jobs[i];
    forall i | 0 <= i < |s.jobs| && i != j && Holding(s.jobs[i])
      ensures s.jobs[i].args != x
    {
    }
    forall p | p in t.heap
      ensures Holder(t, p)
    {
      assert Holder(s, p);
      if !(Pending(s) && p == s.conn) {
        var i :| 0 <= i < |s.jobs| && Holding(s.jobs[i]) && s.jobs[i].args == p;
        assert Holding(t.jobs[i]) && t.jobs[i].args == p;
      }
    }
  }

  lemma OwnedAlike(s: Server, t: Server)
    requires Owned(s) && t.heap == s.heap && t.main == s.main && t.conn == s.conn && |t.jobs| == |s.jobs|
    requires forall i :: 0 <= i < |s.jobs| ==>
      Holding(t.jobs[i]) == Holding(s.jobs[i]) && t.jobs[i].args == s.jobs[i].args
    ensures Owned(t)
  {
  }

  lemma OwnedByJobs(s: Server, e: Event)
    requires Owned(s) && Acts(s, e)
    ensures Owned(Next(s, e))
  {
    var t := Next(s, e);
    if e.Free? {
      OwnedAfterFree(s, e.job);
    } else {
      ActsOnOneJob(s, e);
      OwnedAlike(s, t);
    }
  }

  lemma {:induction false} SenderStays(received: seq<Option<Sender>>, a: Option<Sender>, n: nat)
    requires n <= |received|
    ensures LastSender(received + [a], n) == LastSender(received, n)
  {
    if n > 0 { SenderStays(received, a, n - 1); }
  }

  /** What a step does to the log of receives. */
  lemma LogGrows(s: Server, e: Event)
    ensures var t := Next(s, e);
      && |s.received| <= |t.received|
      && (forall n :: 0 <= n <= |s.received| ==> LastSender(t.received, n) == LastSender(s.received, n))
      && (s.addrClient == LastSender(s.received, |s.received|) ==> t.addrClient == LastSender(t.received, |t.received|))
  {
    if e.Receive? && s.main == Receiving {
      forall n | 0 <= n <= |s.received|
        ensures LastSender(s.received + [e.sender], n) == LastSender(s.received, n)
      {
        SenderStays(s.received, e.sender, n);
      }
    }
  }

  lemma PairedByMain(s: Server, e: Event)
    requires Owned(s) && Paired(s) && !Acts(s, e)
    ensures Paired(Next(s, e))
  {
    var t := Next(s, e);
    LogGrows(s, e);
    if e.Spawn? && s.main == Spawning { SpawnedJobs(s); }
    forall j | 0 <= j < |t.jobs|
      ensures j < |t.jobs| <= |t.received| && JobPaired(t, j)
    {
      if j < |s.jobs| { assert JobPaired(s, j); }
    }
  }

  lemma PairedByJobs(s: Server, e: Event)
    requires Owned(s) && Paired(s) && Acts(s, e)
    ensures Paired(Next(s, e))
  {
    var t := Next(s, e);
    ActsOnOneJob(s, e);
    assert JobPaired(s, e.job);
    forall j | 0 <= j < |t.jobs|
      ensures j < |t.jobs| <= |t.received| && JobPaired(t, j)
    {
      assert JobPaired(s, j);
    }
  }

  lemma StaysAnswered(s: Server, e: Event)
    requires Paired(s) && Answered(s)
    ensures Answered(Next(s, e))
  {
    LogGrows(s, e);
    if Acts(s, e) {
      ActsOnOneJob(s, e);
      assert JobPaired(s, e.job);
      AnsweredByJobs(s, Next(s, e), e.job);
    } else {
      if e.Spawn? && s.main == Spawning { SpawnedJobs(s); }
    }
  }

  /** A step of job `j`, which has not replied yet, leaves the replies alone or adds its own. */
  lemma AnsweredByJobs(s: Server, t: Server, j: nat)
    requires Answered(s) && j < |s.jobs| <= |s.received| && s.jobs[j].step != Done && t.received == s.received
    requires |t.jobs| == |s.jobs| && forall i :: 0 <= i < |s.jobs| && i != j ==> t.jobs[i] == s.jobs[i]
    requires t.replies == s.replies
          || (t.jobs[j].step == Done && t.replies == s.replies + [Reply(j, LastSender(s.received, j + 1))])
    ensures Answered(t)
  {
  }

  lemma BalancedByMain(s: Server, e: Event)
    requires Balanced(s) && !Acts(s, e) && (Pending(s) ==> s.conn in s.heap)
    ensures Balanced(Next(s, e))
  {
  }

  lemma BalancedByJobs(s: Server, e: Event)
    requires Balanced(s) && Acts(s, e)
    requires Holding(s.jobs[e.job]) ==> s.jobs[e.job].args in s.heap
    ensures Balanced(Next(s, e))
  {
    var t := Next(s, e);
    ActsOnOneJob(s, e);
    PastFreeUpdate(s.jobs, e.job, t.jobs[e.job]);
    if e.Free? { assert t.heap.Keys == s.heap.Keys - {s.jobs[e.job].args}; }
  }

  lemma StepKeepsSound(s: Server, e: Event)
    requires Sound(s)
    ensures Sound(Next(s, e))
  {
    NoMisuse(s, e);
    StaysAnswered(s, e);
    if Acts(s, e) {
      OwnedByJobs(s, e);
      PairedByJobs(s, e);
      BalancedByJobs(s, e);
    } else {
      OwnedByMain(s, e);
      PairedByMain(s, e);
      BalancedByMain(s, e);
    }
  }

  lemma {:induction false} EveryStateIsSound(events: seq<Event>, k: nat)
    requires k <= |events|
    ensures Sound(After(events, k))
  {
    if k > 0 {
      EveryStateIsSound(events, k - 1);
      StepKeepsSound(After(events, k - 1), events[k - 1]);
    }
  }

  /** Under every interleaving each job replies at most once, and only to the sender of the
      datagram it was created for, although the receive loop overwrites its address. A failed
      receive creates a job, too, which replies to the sender before. */
  lemma RepliesGoToTheirSenders(events: seq<Event>)
    ensures var s := After(events, |events|);
      && (forall i :: 0 <= i < |s.replies| ==>
            var (j, dest) := (s.replies[i].job, s.replies[i].dest);
            && j < |s.received|
            && (s.received[j].Some? ==> dest == s.received[j].value)
            && (s.received[j].None? ==> dest == LastSender(s.received, j)))
      && (forall i, j :: 0 <= i < j < |s.replies| ==> s.replies[i].job != s.replies[j].job)
  {
    EveryStateIsSound(events, |events|);
  }

  /** Event `i` is job `j` sending its reply, after it has freed its record. */
  predicate RepliesAt(events: seq<Event>, i: nat, j: nat)
    requires i < |events|
  {
    var s := After(events, i);
    events[i] == SendReply(j, true) && j < |s.jobs| && s.jobs[j].step == Freed
  }

  ghost predicate HasReply(replies: seq<Reply>, j: nat) {
    exists i :: 0 <= i < |replies| && replies[i].job == j
  }

  lemma RepliesGrow(s: Server, e: Event)
    requires Sound(s)
    ensures Next(s, e).replies == s.replies +
      if e.SendReply? && e.ok && e.job < |s.jobs| && s.jobs[e.job].step == Freed
      then [Reply(e.job, LastSender(s.received, e.job + 1))] else []
  {
    if Acts(s, e) { assert JobPaired(s, e.job); }
  }

  lemma OneMoreReply(replies: seq<Reply>, r: Reply, j: nat)
    ensures HasReply(replies + [r], j) <==> HasReply(replies, j) || r.job == j
  {
    var more := replies + [r];
    if HasReply(replies, j) {
      var i :| 0 <= i < |replies| && replies[i].job == j;
      assert more[i].job == j;
    }
    if r.job == j { assert more[|replies|].job == j; }
  }

  lemma ReplyStep(events: seq<Event>, k: nat, j: nat)
    requires k < |events|
    ensures HasReply(After(events, k + 1).replies, j) <==>
            HasReply(After(events, k).replies, j) || RepliesAt(events, k, j)
  {
    var s, e := After(events, k), events[k];
    EveryStateIsSound(events, k);
    RepliesGrow(s, e);
    if e.SendReply? && RepliesAt(events, k, e.job) {
      OneMoreReply(s.replies, Reply(e.job, LastSender(s.received, e.job + 1)), j);
    } else {
      assert s.replies + [] == s.replies;
    }
  }

  /** A job has a reply exactly when it has sent one that did not fail. */
  lemma {:induction false} RepliesExactlyWhen(events: seq<Event>, k: nat, j: nat)
    requires k <= |events|
    ensures HasReply(After(events, k).replies, j) <==> exists i :: 0 <= i < k && RepliesAt(events, i, j)
  {
    if k > 0 {
      RepliesExactlyWhen(events, k - 1, j);
      ReplyStep(events, k - 1, j);
    }
  }

  /** What the receive loop got, read off the events. */
  function ReceivedLog(events: seq<Event>, k: nat): seq<Option<Sender>>
    requires k <= |events|
  {
    if k == 0 then []
    else
      match events[k - 1]
      case Receive(a) =>
        if After(events, k - 1).main == Receiving then ReceivedLog(events, k - 1) + [a]
        else ReceivedLog(events, k - 1)
      case _ => ReceivedLog(events, k - 1)
  }

  lemma {:induction false} ReceivedIsLogged(events: seq<Event>, k: nat)
    requires k <= |events|
    ensures After(events, k).received == ReceivedLog(events, k)
  {
    if k > 0 { ReceivedIsLogged(events, k - 1); }
  }

  /** The address left behind is that of the latest receive that did not fail, or zero. */
  lemma {:induction false} LastSenderIs(received: seq<Option<Sender>>, i: nat, n: nat)
    requires i <= n <= |received| && forall j :: i <= j < n ==> received[j].None?
    ensures i > 0 && received[i - 1].Some? ==> LastSender(received, n) == received[i - 1].value
    ensures i == 0 ==> LastSender(received, n) == 0
  {
    if i < n { LastSenderIs(received, i, n - 1); }
  }

  /** The life of one job, uninterrupted: from every state in which the receive loop waits, a
      datagram can be received, handed over and answered, and leaves no record behind. After a
      failed receive it is the sender before who is answered. */
  lemma OneJob(s: Server, received: Option<Sender>, p: Pointer)
    requires s.main == Receiving && p !in s.heap
    ensures var (j, a) := (|s.jobs|, if received.Some? then received.value else s.addrClient);
      var filled := Next(Next(Next(s, Receive(received)), Allocate(p)), Fill);
      var freed := Next(Next(Next(filled, Spawn), Copy(j)), Free(j));
      var done := Next(freed, SendReply(j, true));
      && filled.heap == s.heap[p := Some(a)] && freed.heap == s.heap
      && done.main == Receiving && done.heap == s.heap && done.received == s.received + [received]
      && done.jobs == s.jobs + [Job(p, Some(a), Done)] && done.replies == s.replies + [Reply(j, a)]
      && done.allocs == s.allocs + 1 && done.frees == s.frees + 1 && done.misuse == s.misuse
  {
    var j, a := |s.jobs|, if received.Some? then received.value else s.addrClient;
    var filled := Next(Next(Next(s, Receive(received)), Allocate(p)), Fill);
    assert filled.heap == s.heap[p := Some(a)] && filled.main == Spawning && filled.conn == p;
    JobFromSpawn(filled, a);
    assert filled.heap - {p} == s.heap;
  }

  /** A reply that cannot be sent is not tried again. */
  lemma FailedSendEnds(s: Server, j: nat)
    requires j < |s.jobs| && s.jobs[j].step == Freed && s.jobs[j].conn.Some?
    ensures Next(s, SendReply(j, false)) == s.(jobs := s.jobs[j := s.jobs[j].(step := Done)])
  {
  }

  /** Reading or freeing a record that is not allocated would be noticed, whatever the state. */
  lemma MisuseIsNoticed(s: Server, j: nat)
    requires j < |s.jobs| && s.jobs[j].args !in s.heap
    ensures s.jobs[j].step == Started ==> Next(s, Copy(j)).misuse
    ensures s.jobs[j].step == Copied ==> Next(s, Free(j)).misuse
  {
  }

  lemma JobFromSpawn(s: Server, a: Sender)
    requires s.main == Spawning && s.conn in s.heap && s.heap[s.conn] == Some(a)
    ensures var j := |s.jobs|;
      var freed := Next(Next(Next(s, Spawn), Copy(j)), Free(j));
      var done := Next(freed, SendReply(j, true));
      && freed.heap == s.heap - {s.conn}
      && done == s.(main := Receiving, heap := s.heap - {s.conn}, jobs := s.jobs + [Job(s.conn, Some(a), Done)],
                    replies := s.replies + [Reply(j, a)], frees := s.frees + 1)
  {
    var j, p := |s.jobs|, s.conn;
    var spawned := Next(s, Spawn);
    assert spawned.jobs == s.jobs + [Job(p, None, Started)];
    var copied := Next(spawned, Copy(j));
    assert copied.jobs == s.jobs + [Job(p, Some(a), Copied)];
    var freed := Next(copied, Free(j));
    assert freed.jobs == s.jobs + [Job(p, Some(a), Freed)];
    assert Next(freed, SendReply(j, true)).jobs == s.jobs + [Job(p, Some(a), Done)];
  }

  /** No record is read or freed when it is not allocated, and the live records are exactly
      those of the jobs that have not freed yet, plus at most the one not yet handed over. */
  lemma RecordsAreConserved(events: seq<Event>)
    ensures var s := After(events, |events|);
      && !s.misuse
      && (forall j :: 0 <= j < |s.jobs| && s.jobs[j].step in {Started, Copied} ==> s.jobs[j].args in s.heap)
      && (forall p :: p in s.heap <==> Holder(s, p))
      && |s.heap.Keys| == |s.jobs| - PastFree(s.jobs) + (if Pending(s) then 1 else 0)
      && s.frees == PastFree(s.jobs) <= |s.jobs|
  {
    EveryStateIsSound(events, |events|);
    PastFreeBound(After(events, |events|).jobs);
  }

  lemma {:induction false} PastFreeBound(jobs: seq<Job>)
    ensures PastFree(jobs) <= |jobs|
  {
    if jobs != [] { PastFreeBound(jobs[..|jobs| - 1]); }
  }
}
