/** Lab 7: every connection is handed over through one shared cell, and every file request
    through one shared record. The accept loop and the handler threads interleave in any way.
    Requests are numbered in the order their sockets are written to the cell. */
module SharedHandoff {
  import opened Options

  datatype Kind = Sync | File | Other

  datatype MainStep = Accepting | StartingSync | NamingFile | StoringSocket | StartingFile

  /** A handler thread: the request it was created for, the socket it copied, and for a file
      request whose name came with it. */
  datatype Handler = Handler(kind: Kind, own: nat, socket: Option<nat>, name: Option<nat>)

  /** The shared cell and record, and how many requests have been written so far. */
  datatype Listener = Listener(main: MainStep, writes: nat, cell: nat, fileName: nat, fileSocket: nat,
                               handlers: seq<Handler>)

  const LISTENING: Listener := Listener(Accepting, 0, 0, 0, 0, [])

  datatype Event = Write(kind: Kind) | StartSync | StoreName | NameFails | StoreSocket | StartFile | Copy(handler: nat)

  /** Events that cannot happen in a state leave it as it is. */
  function Next(s: Listener, e: Event): Listener {
    match e
    case Write(kind) =>
      if s.main == Accepting then
        s.(writes := s.writes + 1, cell := s.writes,
           main := match kind case Sync => StartingSync case File => NamingFile case Other => Accepting)
      else s
    case StartSync =>
      if s.main == StartingSync
      then s.(main := Accepting, handlers := s.handlers + [Handler(Sync, s.cell, None, None)]) else s
    case StoreName => if s.main == NamingFile then s.(main := StoringSocket, fileName := s.cell) else s
    case NameFails => if s.main == NamingFile then s.(main := Accepting) else s
    case StoreSocket => if s.main == StoringSocket then s.(main := StartingFile, fileSocket := s.cell) else s
    case StartFile =>
      if s.main == StartingFile
      then s.(main := Accepting, handlers := s.handlers + [Handler(File, s.cell, None, None)]) else s
    case Copy(h) =>
      if h < |s.handlers| && s.handlers[h].socket.None? then
        var t := s.handlers[h];
        if t.kind == Sync then s.(handlers := s.handlers[h := t.(socket := Some(s.cell))])
        else s.(handlers := s.handlers[h := t.(socket := Some(s.fileSocket), name := Some(s.fileName))])
      else s
  }

  function After(events: seq<Event>, k: nat): Listener
    requires k <= |events|
  {
    if k == 0 then LISTENING else Next(After(events, k - 1), events[k - 1])
  }

  // ---- the invariant ----

  /** A sync handler reads a socket no older than its own. */
  predicate SyncSound(s: Listener, h: Handler) {
    && h.own < s.writes
    && (h.socket.Some? ==> h.own <= h.socket.value < s.writes)
  }

  /** A file handler reads a socket no older than its own and a name no older than the socket. */
  predicate FileSound(s: Listener, h: Handler) {
    && h.own < s.writes
    && (h.socket.None? ==> h.own <= s.fileSocket)
    && (h.socket.Some? ==> h.name.Some? && h.own <= h.socket.value <= h.name.value < s.writes)
  }

  ghost predicate Sound(s: Listener) {
    && (s.main != Accepting ==> s.writes > 0)
    && (s.writes > 0 ==> s.cell == s.writes - 1 && s.fileSocket <= s.fileName < s.writes)
    && (s.main == StartingFile ==> s.fileSocket == s.fileName == s.cell)
    && (s.main == StoringSocket ==> s.fileName == s.cell)
    && (s.writes == 0 ==> s.handlers == [] && s.fileName == s.fileSocket == 0)
    && (forall i :: 0 <= i < |s.handlers| ==> s.handlers[i].kind != Other)
    && (forall i :: 0 <= i < |s.handlers| && s.handlers[i].kind == Sync ==> SyncSound(s, s.handlers[i]))
    && (forall i :: 0 <= i < |s.handlers| && s.handlers[i].kind == File ==> FileSound(s, s.handlers[i]))
    && (forall i :: 0 <= i < |s.handlers| && s.main != Accepting ==> s.handlers[i].own < s.cell)
    && (forall i, j :: 0 <= i < j < |s.handlers| ==> s.handlers[i].own < s.handlers[j].own)
  }

  lemma WriteKeepsSound(s: Listener, kind: Kind)
    requires Sound(s) && s.main == Accepting
    ensures Sound(Next(s, Write(kind)))
  {
  }

  lemma StartKeepsSound(s: Listener, e: Event)
    requires Sound(s) && (e == StartSync || e == StartFile)
    ensures Sound(Next(s, e))
  {
  }

  lemma StoreKeepsSound(s: Listener, e: Event)
    requires Sound(s) && e in {StoreName, NameFails, StoreSocket}
    ensures Sound(Next(s, e))
  {
  }

  lemma CopyKeepsSound(s: Listener, h: nat)
    requires Sound(s) && h < |s.handlers| && s.handlers[h].socket.None?
    ensures Sound(Next(s, Copy(h)))
  {
    var t := s.handlers[h];
    OneHandlerCopied(s, h, if t.kind == Sync then t.(socket := Some(s.cell))
                           else t.(socket := Some(s.fileSocket), name := Some(s.fileName)));
  }

  lemma OneHandlerCopied(s: Listener, h: nat, t: Handler)
    requires Sound(s) && h < |s.handlers|
    requires t.kind == s.handlers[h].kind && t.own == s.handlers[h].own
    requires (t.kind == Sync ==> SyncSound(s, t)) && (t.kind == File ==> FileSound(s, t))
    ensures Sound(s.(handlers := s.handlers[h := t]))
  {
  }

  lemma StepKeepsSound(s: Listener, e: Event)
    requires Sound(s)
    ensures Sound(Next(s, e))
  {
    match e
    case Write(kind) => if s.main == Accepting { WriteKeepsSound(s, kind); }
    case StartSync => StartKeepsSound(s, e);
    case StartFile => StartKeepsSound(s, e);
    case StoreName => StoreKeepsSound(s, e);
    case StoreSocket => StoreKeepsSound(s, e);
    case NameFails => StoreKeepsSound(s, e);
    case Copy(h) => if h < |s.handlers| && s.handlers[h].socket.None? { CopyKeepsSound(s, h); }
  }

  lemma {:induction false} EveryStateIsSound(events: seq<Event>, k: nat)
    requires k <= |events|
    ensures Sound(After(events, k))
  {
    if k > 0 {
      EveryStateIsSound(events, k - 1);
      StepKeepsSound(After(events, k - 1), events[k - 1]);
    }
  }

  // ---- what a handler copies ----

  /** The sync handler of the k-th written request reads a socket with index at least k. */
  lemma SharedCellBound(events: seq<Event>)
    ensures var s := After(events, |events|);
      forall i :: 0 <= i < |s.handlers| && s.handlers[i].kind == Sync && s.handlers[i].socket.Some? ==>
        s.handlers[i].own <= s.handlers[i].socket.value < s.writes
  {
    EveryStateIsSound(events, |events|);
  }

  /** File requests race on two words: the socket a handler copies is no older than its own
      request, and the name beside it may be younger still. */
  lemma FileRecordBound(events: seq<Event>)
    ensures var s := After(events, |events|);
      forall i :: 0 <= i < |s.handlers| && s.handlers[i].kind == File && s.handlers[i].socket.Some? ==>
        var h := s.handlers[i];
        h.name.Some? && h.own <= h.socket.value <= h.name.value < s.writes
  {
    EveryStateIsSound(events, |events|);
  }

  // ---- exactly when it copies its own ----

  /** Event `k` overwrites what a waiting handler of this kind is going to copy: the cell, or
      the name in the record. */
  predicate Overwrites(events: seq<Event>, kind: Kind, k: nat)
    requires k < |events|
  {
    if kind == Sync then events[k].Write? && After(events, k).main == Accepting
    else events[k] == StoreName && After(events, k).main == NamingFile
  }

  ghost predicate Untouched(events: seq<Event>, kind: Kind, from: nat, to: nat)
    requires from <= to <= |events|
  {
    forall k :: from <= k < to ==> !Overwrites(events, kind, k)
  }

  /** Event `k` starts handler number `h`. */
  predicate Starts(events: seq<Event>, kind: Kind, k: nat, h: nat)
    requires k < |events|
  {
    && h == |After(events, k).handlers|
    && match kind
       case Sync => events[k] == StartSync && After(events, k).main == StartingSync
       case File => events[k] == StartFile && After(events, k).main == StartingFile
       case Other => false
  }

  ghost predicate NoCopy(events: seq<Event>, h: nat, from: nat, to: nat)
    requires from <= to <= |events|
  {
    forall i :: from <= i < to ==> events[i] != Copy(h)
  }

  /** Handler `h` starts with event `start` and copies with event `copy`. */
  ghost predicate Handles(events: seq<Event>, kind: Kind, h: nat, start: nat, copy: nat) {
    && start < copy < |events| && Starts(events, kind, start, h)
    && events[copy] == Copy(h) && NoCopy(events, h, start + 1, copy)
  }

  /** The handler was started for request `own` and has not made its copy. */
  predicate Waiting(s: Listener, kind: Kind, h: nat, own: nat) {
    && h < |s.handlers| && s.handlers[h].kind == kind && s.handlers[h].own == own
    && s.handlers[h].socket.None?
  }

  /** After `k` events, what a handler of this kind would copy came with request `own`. */
  predicate Holds(events: seq<Event>, kind: Kind, k: nat, own: nat)
    requires k <= |events|
  {
    (if kind == Sync then After(events, k).cell else After(events, k).fileName) == own
  }

  /** The handler has copied the socket of its own request, and a file handler its name. */
  predicate ServesOwn(h: Handler) {
    h.socket == Some(h.own) && (h.kind == File ==> h.name == Some(h.own))
  }

  lemma OtherHandlersStay(s: Listener, e: Event, h: nat)
    requires h < |s.handlers| && (s.handlers[h].socket.None? ==> e != Copy(h))
    ensures h < |Next(s, e).handlers| && Next(s, e).handlers[h] == s.handlers[h]
  {
  }

  lemma HoldsAtStart(events: seq<Event>, kind: Kind, start: nat, h: nat)
    requires start < |events| && Starts(events, kind, start, h)
    ensures var own := After(events, start).cell;
      Waiting(After(events, start + 1), kind, h, own) && Holds(events, kind, start + 1, own)
  {
    EveryStateIsSound(events, start);
  }

  lemma WaitStep(events: seq<Event>, kind: Kind, k: nat, h: nat, own: nat)
    requires k < |events| && Waiting(After(events, k), kind, h, own) && events[k] != Copy(h)
    ensures Waiting(After(events, k + 1), kind, h, own)
    ensures Holds(events, kind, k + 1, own) <==> Holds(events, kind, k, own) && !Overwrites(events, kind, k)
  {
    var s := After(events, k);
    EveryStateIsSound(events, k);
    OtherHandlersStay(s, events[k], h);
    if kind == Sync { CellStep(s, events[k], h); } else { NameStep(s, events[k], h); }
  }

  lemma CellStep(s: Listener, e: Event, h: nat)
    requires Sound(s) && h < |s.handlers|
    ensures Next(s, e).cell == if e.Write? && s.main == Accepting then s.writes else s.cell
    ensures s.handlers[h].own < s.writes
  {
    assert s.handlers[h].kind != Other;
  }

  lemma NameStep(s: Listener, e: Event, h: nat)
    requires Sound(s) && h < |s.handlers|
    ensures Next(s, e).fileName == if e == StoreName && s.main == NamingFile then s.cell else s.fileName
    ensures e == StoreName && s.main == NamingFile ==> s.cell > s.handlers[h].own
  {
  }

  lemma {:induction false} StillWaiting(events: seq<Event>, kind: Kind, from: nat, h: nat, own: nat, k: nat)
    requires from <= k <= |events| && Waiting(After(events, from), kind, h, own) && NoCopy(events, h, from, k)
    ensures Waiting(After(events, k), kind, h, own)
  {
    if from < k {
      StillWaiting(events, kind, from, h, own, k - 1);
      WaitStep(events, kind, k - 1, h, own);
    }
  }

  /** While a handler waits, what it is going to copy stays its own exactly as long as nothing
      overwrites it. */
  lemma HoldsWhileWaiting(events: seq<Event>, kind: Kind, from: nat, h: nat, own: nat, k: nat)
    requires from <= k <= |events| && NoCopy(events, h, from, k)
    requires Waiting(After(events, from), kind, h, own) && Holds(events, kind, from, own)
    ensures Waiting(After(events, k), kind, h, own)
    ensures Holds(events, kind, k, own) <==> Untouched(events, kind, from, k)
  {
    StillWaiting(events, kind, from, h, own, k);
    var held := seq(|events| + 1, i requires 0 <= i <= |events| => Holds(events, kind, i, own));
    var lost := seq(|events|, i requires 0 <= i < |events| => Overwrites(events, kind, i));
    forall i | from <= i < k
      ensures KeptUnless(held, lost, i)
    {
      StillWaiting(events, kind, from, h, own, i);
      WaitStep(events, kind, i, h, own);
    }
    KeptThroughout(held, lost, from, k);
    assert forall i :: from <= i < k ==> lost[i] == Overwrites(events, kind, i);
  }

  predicate KeptUnless(held: seq<bool>, lost: seq<bool>, i: nat)
    requires i < |lost| == |held| - 1
  {
    held[i + 1] <==> held[i] && !lost[i]
  }

  lemma {:induction false} KeptThroughout(held: seq<bool>, lost: seq<bool>, from: nat, k: nat)
    requires from <= k <= |lost| == |held| - 1 && held[from]
    requires forall i :: from <= i < k ==> KeptUnless(held, lost, i)
    ensures held[k] <==> forall i :: from <= i < k ==> !lost[i]
  {
    if from < k {
      KeptThroughout(held, lost, from, k - 1);
      assert KeptUnless(held, lost, k - 1);
    }
  }

  /** A handler serves its own request exactly when nothing overwrites what it copies between
      its start and its copy: no socket is written to the cell before a sync handler copies,
      and no name stored in the record before a file handler does. */
  lemma ServesOwnExactlyWhen(events: seq<Event>, kind: Kind, h: nat, start: nat, copy: nat)
    requires Handles(events, kind, h, start, copy)
    ensures var s := After(events, |events|);
      && h < |s.handlers| && s.handlers[h].kind == kind && s.handlers[h].own == After(events, start).cell
      && s.handlers[h].socket.Some?
      && (ServesOwn(s.handlers[h]) <==> Untouched(events, kind, start + 1, copy))
  {
    var own := After(events, start).cell;
    HoldsAtStart(events, kind, start, h);
    HoldsWhileWaiting(events, kind, start + 1, h, own, copy);
    OwnCopy(events, kind, copy, h, own);
    CopyIsFinal(events, copy + 1, h, |events|);
  }

  lemma OwnCopy(events: seq<Event>, kind: Kind, k: nat, h: nat, own: nat)
    requires k < |events| && events[k] == Copy(h) && Waiting(After(events, k), kind, h, own)
    ensures var s := After(events, k + 1);
      && h < |s.handlers| && s.handlers[h].kind == kind && s.handlers[h].own == own && s.handlers[h].socket.Some?
      && (ServesOwn(s.handlers[h]) <==> Holds(events, kind, k, own))
  {
    EveryStateIsSound(events, k);
  }

  lemma {:induction false} CopyIsFinal(events: seq<Event>, k: nat, h: nat, m: nat)
    requires k <= m <= |events| && h < |After(events, k).handlers| && After(events, k).handlers[h].socket.Some?
    ensures h < |After(events, m).handlers| && After(events, m).handlers[h] == After(events, k).handlers[h]
  {
    if k < m {
      CopyIsFinal(events, k, h, m - 1);
      OtherHandlersStay(After(events, m - 1), events[m - 1], h);
    }
  }

  // ---- one-to-one service ----

  lemma StepOfHandler(s: Listener, e: Event, h: nat)
    requires h < |Next(s, e).handlers|
    ensures h < |s.handlers| ==>
      && Next(s, e).handlers[h].kind == s.handlers[h].kind
      && (Next(s, e).handlers[h].socket.Some? <==> s.handlers[h].socket.Some? || e == Copy(h))
    ensures h >= |s.handlers| ==> h == |s.handlers| && (e == StartSync || e == StartFile)
    ensures |s.handlers| <= |Next(s, e).handlers|
  {
  }

  /** Every handler was started by some event. */
  lemma {:induction false} StartOf(events: seq<Event>, k: nat, h: nat) returns (start: nat)
    requires k <= |events| && h < |After(events, k).handlers|
    ensures start < k && Starts(events, After(events, k).handlers[h].kind, start, h)
    ensures h < |After(events, start + 1).handlers| && After(events, start + 1).handlers[h].socket.None?
  {
    StepOfHandler(After(events, k - 1), events[k - 1], h);
    if h < |After(events, k - 1).handlers| {
      start := StartOf(events, k - 1, h);
    } else {
      start := k - 1;
    }
  }

  /** Every handler that has copied did so with some first event. */
  lemma {:induction false} CopyOf(events: seq<Event>, from: nat, k: nat, h: nat) returns (copy: nat)
    requires from <= k <= |events| && h < |After(events, from).handlers| <= |After(events, k).handlers|
    requires After(events, from).handlers[h].socket.None? && After(events, k).handlers[h].socket.Some?
    ensures from <= copy < k && events[copy] == Copy(h) && NoCopy(events, h, from, copy)
    decreases k - from
  {
    if events[from] == Copy(h) {
      copy := from;
    } else {
      OtherHandlersStay(After(events, from), events[from], h);
      StepOfHandler(After(events, from), events[from], h);
      HandlersGrow(events, from + 1, k);
      copy := CopyOf(events, from + 1, k, h);
    }
  }

  lemma {:induction false} HandlersGrow(events: seq<Event>, from: nat, k: nat)
    requires from <= k <= |events|
    ensures |After(events, from).handlers| <= |After(events, k).handlers|
  {
    if from < k { HandlersGrow(events, from, k - 1); }
  }

  lemma HandlingOf(events: seq<Event>, h: nat) returns (kind: Kind, start: nat, copy: nat)
    requires h < |After(events, |events|).handlers| && After(events, |events|).handlers[h].socket.Some?
    ensures Handles(events, kind, h, start, copy)
  {
    kind := After(events, |events|).handlers[h].kind;
    start := StartOf(events, |events|, h);
    HandlersGrow(events, start + 1, |events|);
    copy := CopyOf(events, start + 1, |events|, h);
  }

  /** Every handler that copies does so before anything is overwritten. */
  ghost predicate Prompt(events: seq<Event>) {
    forall kind, h: nat, start: nat, copy: nat ::
      Handles(events, kind, h, start, copy) ==> Untouched(events, kind, start + 1, copy)
  }

  ghost predicate AllServeOwn(handlers: seq<Handler>) {
    forall h :: 0 <= h < |handlers| && handlers[h].socket.Some? ==> ServesOwn(handlers[h])
  }

  lemma PromptHandlersServeOwn(events: seq<Event>)
    requires Prompt(events)
    ensures AllServeOwn(After(events, |events|).handlers)
  {
    var handlers := After(events, |events|).handlers;
    forall h | 0 <= h < |handlers| && handlers[h].socket.Some?
      ensures ServesOwn(handlers[h])
    {
      var kind, start, copy := HandlingOf(events, h);
      ServesOwnExactlyWhen(events, kind, h, start, copy);
    }
  }

  lemma HandlersServingOwnArePrompt(events: seq<Event>)
    requires AllServeOwn(After(events, |events|).handlers)
    ensures Prompt(events)
  {
    forall kind, h: nat, start: nat, copy: nat | Handles(events, kind, h, start, copy)
      ensures Untouched(events, kind, start + 1, copy)
    {
      ServesOwnExactlyWhen(events, kind, h, start, copy);
    }
  }

  ghost predicate NoSharedSockets(handlers: seq<Handler>) {
    forall i, j :: 0 <= i < j < |handlers| && handlers[i].socket.Some? && handlers[j].socket.Some? ==>
      handlers[i].socket != handlers[j].socket
  }

  lemma OwnSocketsAreDistinct(s: Listener)
    requires Sound(s) && AllServeOwn(s.handlers)
    ensures NoSharedSockets(s.handlers)
  {
  }

  /** Service is one to one in exactly the runs in which every handler copies before what it
      copies is overwritten, and then no two handlers share a socket. */
  lemma OneToOneService(events: seq<Event>)
    ensures var handlers := After(events, |events|).handlers;
      (AllServeOwn(handlers) <==> Prompt(events)) && (Prompt(events) ==> NoSharedSockets(handlers))
  {
    if Prompt(events) {
      PromptHandlersServeOwn(events);
      EveryStateIsSound(events, |events|);
      OwnSocketsAreDistinct(After(events, |events|));
    } else if AllServeOwn(After(events, |events|).handlers) {
      HandlersServingOwnArePrompt(events);
    }
  }

  // ---- one request at a time ----

  /** From every state in which the loop accepts, a sync request can be written, handed over and
      served on its own socket. */
  lemma OneSyncRequest(s: Listener)
    requires s.main == Accepting
    ensures var done := Next(Next(Next(s, Write(Sync)), StartSync), Copy(|s.handlers|));
      && done.main == Accepting && done.writes == s.writes + 1 && done.cell == s.writes
      && done.handlers == s.handlers + [Handler(Sync, s.writes, Some(s.writes), None)]
  {
  }

  /** And a file request, with its own name. */
  lemma OneFileRequest(s: Listener)
    requires s.main == Accepting
    ensures var stored := Next(Next(Next(s, Write(File)), StoreName), StoreSocket);
      var done := Next(Next(stored, StartFile), Copy(|s.handlers|));
      && done.main == Accepting && done.writes == s.writes + 1
      && done.cell == done.fileName == done.fileSocket == s.writes
      && done.handlers == s.handlers + [Handler(File, s.writes, Some(s.writes), Some(s.writes))]
  {
  }

  /** Other requests, and file requests whose name does not arrive, use the cell as well, but
      start no handler. */
  lemma RequestsWithoutHandler(s: Listener)
    requires s.main == Accepting
    ensures Next(s, Write(Other)) == s.(writes := s.writes + 1, cell := s.writes)
    ensures Next(Next(s, Write(File)), NameFails) == s.(writes := s.writes + 1, cell := s.writes)
  {
  }

  // ---- what can go wrong ----

  /** One client can be sent the file another one asked for: the first handler serves its own
      socket with the second request's name. */
  lemma NameCanBeAnothers()
    ensures var events := [Write(File), StoreName, StoreSocket, StartFile, Write(File), StoreName, Copy(0)];
      After(events, |events|).handlers == [Handler(File, 0, Some(0), Some(1))]
  {
    var events := [Write(File), StoreName, StoreSocket, StartFile, Write(File), StoreName, Copy(0)];
    var a := Handler(File, 0, None, None);
    assert After(events, 1) == Listener(NamingFile, 1, 0, 0, 0, []);
    assert After(events, 4) == Listener(Accepting, 1, 0, 0, 0, [a]);
    assert After(events, 6) == Listener(StoringSocket, 2, 1, 1, 0, [a]);
  }

  /** Two requests in quick succession can both be served on the second one's socket. */
  lemma FirstRequestCanBeLost()
    ensures var events := [Write(Sync), StartSync, Write(Sync), StartSync, Copy(0), Copy(1)];
      var s := After(events, |events|);
      |s.handlers| == 2 && s.handlers[0].socket == s.handlers[1].socket == Some(1)
  {
    var events := [Write(Sync), StartSync, Write(Sync), StartSync, Copy(0), Copy(1)];
    var a, b := Handler(Sync, 0, None, None), Handler(Sync, 1, None, None);
    assert After(events, 1) == Listener(StartingSync, 1, 0, 0, 0, []);
    assert After(events, 2) == Listener(Accepting, 1, 0, 0, 0, [a]);
    assert After(events, 4) == Listener(Accepting, 2, 1, 0, 0, [a, b]);
    assert After(events, 5).handlers == [a.(socket := Some(1)), b];
  }
}
