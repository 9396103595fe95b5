/** Client and server of Lab 1 over one pipe, as an interleaved transition system. */
module LockStep {
  import opened IntStack
  import opened Options
  import opened StackServer

  /** What the user types, and how the number after a push is parsed: as a value, not at all,
      or as the end of the input, which the client takes for a success. */
  datatype Typed = Command(code: int) | PushValue(value: int) | PushNotANumber | PushAtEndOfInput | Unknown | Exit

  datatype Event =
    | ClientTypes(typed: Typed, writeOk: bool)
    | ClientReadsAck
    | ClientReadFails
    | ServerReads
    | ServerReadFails
    | ServerAcks
    | ServerAckFails

  datatype ClientState = AtPrompt | AwaitingAck | Gone

  datatype ServerState = Reading | Acking | Stopped | Broken

  /** The two threads, the pipe between them, and the history of what was sent and received. */
  datatype Joint = Joint(
    client: ClientState, buffer: Request, sent: seq<Request>, acked: nat, wrongAck: bool,
    toServer: seq<Request>, toClient: seq<int>,
    server: ServerState, received: seq<Request>, stack: seq<int>)

  /** The handshake is done and the server is ready. */
  const READY: Joint :=
    Joint(AtPrompt, Request(0, 0), [], 0, false, [], [], Reading, [], [])

  /** The codes the client's one-word commands stand for. */
  const PLAIN_COMMANDS: set<int> :=
    {STACKPEEK, STACKPOP, STACKNEW, STACKSIZE, STACKISEMPTY, STACKDISPLAY, SERVERHELP}

  function Send(j: Joint, r: Request, writeOk: bool): Joint {
    if writeOk
    then j.(buffer := r, sent := j.sent + [r], toServer := j.toServer + [r], client := AwaitingAck)
    else j.(buffer := r, client := Gone)
  }

  /** One trip around the client's loop. The exit command closes the pipe without being sent. */
  function Type(j: Joint, typed: Typed, writeOk: bool): Joint {
    match typed
    case Command(code) =>
      if code in PLAIN_COMMANDS then Send(j, Request(code, j.buffer.argument), writeOk) else j
    case PushValue(v) => Send(j, Request(STACKPUSH, v), writeOk)
    case PushNotANumber => j.(buffer := Request(STACKPUSH, j.buffer.argument))
    case PushAtEndOfInput => Send(j, Request(STACKPUSH, j.buffer.argument), writeOk)
    case Unknown => j
    case Exit => j.(buffer := Request(SERVEREXIT, j.buffer.argument), client := Gone)
  }

  /** Events that cannot happen in a state leave it as it is. */
  function Next(j: Joint, e: Event): Joint {
    match e
    case ClientTypes(typed, writeOk) => if j.client == AtPrompt then Type(j, typed, writeOk) else j
    case ClientReadsAck =>
      if j.client != AwaitingAck || j.toClient == [] then j
      else if j.toClient[0] != 1 then j.(client := Gone, toClient := j.toClient[1..], wrongAck := true)
      else j.(client := AtPrompt, toClient := j.toClient[1..], acked := j.acked + 1)
    case ClientReadFails => if j.client == AwaitingAck then j.(client := Gone) else j
    case ServerReads =>
      if j.server != Reading || j.toServer == [] then j
      else
        var r := j.toServer[0];
        var taken := j.(toServer := j.toServer[1..], received := j.received + [r]);
        if r.command == SERVEREXIT then taken.(server := Stopped, stack := [])
        else taken.(server := Acking, stack := Exec(j.stack, r))
    case ServerReadFails => if j.server == Reading then j.(server := Broken, stack := []) else j
    case ServerAcks => if j.server == Acking then j.(server := Reading, toClient := j.toClient + [1]) else j
    case ServerAckFails => if j.server == Acking then j.(server := Broken, stack := []) else j
  }

  function After(events: seq<Event>, k: nat): Joint
    requires k <= |events|
  {
    if k == 0 then READY else Next(After(events, k - 1), events[k - 1])
  }

  /** The numbers: every sent request is in the pipe or received, every received one is being
      acknowledged, in the pipe as an acknowledgement, or acknowledged. */
  predicate InStep(j: Joint) {
    && |j.sent| == |j.received| + |j.toServer|
    && j.acked <= |j.sent| <= j.acked + 1
    && (j.client == AtPrompt ==> |j.sent| == j.acked)
    && (j.client == AwaitingAck ==> |j.sent| == j.acked + 1)
    && |j.received| >= j.acked + |j.toClient|
    && (j.server == Reading ==> |j.received| == j.acked + |j.toClient|)
    && (j.server == Acking ==> |j.received| == j.acked + |j.toClient| + 1)
  }

  /** The contents: requests arrive in order and unchanged, acknowledgements are ones, and no
      request is an exit. */
  ghost predicate Faithful(j: Joint) {
    && j.sent == j.received + j.toServer
    && (forall i :: 0 <= i < |j.sent| ==> j.sent[i].command != SERVEREXIT)
    && (forall i :: 0 <= i < |j.toClient| ==> j.toClient[i] == 1)
    && !j.wrongAck && j.server != Stopped
    && (j.server in {Reading, Acking} ==> j.stack == Fold(j.received, |j.received|))
  }

  lemma ReadKeepsFaith(j: Joint)
    requires InStep(j) && Faithful(j)
    ensures InStep(Next(j, ServerReads)) && Faithful(Next(j, ServerReads))
  {
    if j.server == Reading && j.toServer != [] {
      var r := j.toServer[0];
      FoldAppend(j.received, r, |j.received|);
      assert r == j.sent[|j.received|];
      assert j.received + j.toServer == (j.received + [r]) + j.toServer[1..];
    }
  }

  lemma SendKeepsFaith(j: Joint, r: Request, writeOk: bool)
    requires InStep(j) && Faithful(j) && j.client == AtPrompt && r.command != SERVEREXIT
    ensures InStep(Send(j, r, writeOk)) && Faithful(Send(j, r, writeOk))
  {
  }

  lemma StepKeepsFaith(j: Joint, e: Event)
    requires InStep(j) && Faithful(j)
    ensures InStep(Next(j, e)) && Faithful(Next(j, e))
  {
    match e
    case ServerReads => ReadKeepsFaith(j);
    case ClientTypes(typed, writeOk) =>
      if j.client == AtPrompt {
        match typed
        case Command(code) =>
          if code in PLAIN_COMMANDS { SendKeepsFaith(j, Request(code, j.buffer.argument), writeOk); }
        case PushValue(v) => SendKeepsFaith(j, Request(STACKPUSH, v), writeOk);
        case PushAtEndOfInput => SendKeepsFaith(j, Request(STACKPUSH, j.buffer.argument), writeOk);
        case _ =>
      }
    case _ =>
  }

  lemma {:induction false} EveryStateIsFaithful(events: seq<Event>, k: nat)
    requires k <= |events|
    ensures InStep(After(events, k)) && Faithful(After(events, k))
  {
    if k > 0 {
      EveryStateIsFaithful(events, k - 1);
      StepKeepsFaith(After(events, k - 1), events[k - 1]);
    }
  }

  /** In every reachable state at most one request is unanswered, and a server that is still
      serving holds the plain stack of the first k or k + 1 requests sent, where k counts the
      acknowledgements the client has received: the extra one exactly when the server has
      taken in the request the client is waiting for. */
  lemma LockStepRefinesFold(events: seq<Event>)
    ensures var (j, k) := (After(events, |events|), After(events, |events|).acked);
      && k <= |j.sent| <= k + 1
      && (j.server in {Reading, Acking} ==>
            && (|j.received| == k || |j.received| == k + 1)
            && |j.received| <= |j.sent|
            && j.stack == Fold(j.sent, |j.received|)
            && (j.client == AtPrompt ==> |j.received| == |j.sent| == k))
  {
    var j := After(events, |events|);
    EveryStateIsFaithful(events, |events|);
    assert j.received == j.sent[..|j.received|];
    FoldPrefix(j.sent, |j.received|, |j.received|);
  }

  /** The server's exit command is never received, and no acknowledgement is ever wrong. */
  lemma ExitIsNeverReceived(events: seq<Event>)
    ensures var j := After(events, |events|);
      && j.server != Stopped && !j.wrongAck
      && forall i :: 0 <= i < |j.received| ==> j.received[i].command != SERVEREXIT
  {
    var j := After(events, |events|);
    EveryStateIsFaithful(events, |events|);
    assert forall i :: 0 <= i < |j.received| ==> j.received[i] == j.sent[i];
  }

  // ---- from what is typed to what is on the stack ----

  /** What a client that holds `held` in its second word asks for when the user types this. */
  function Wanted(held: int, typed: Typed): Option<Request> {
    match typed
    case Command(code) => if code in {0, 1, 3, 4, 5, 6, -2} then Some(Request(code, held)) else None
    case PushValue(v) => Some(Request(2, v))
    case PushAtEndOfInput => Some(Request(2, held))
    case PushNotANumber => None
    case Unknown => None
    case Exit => None
  }

  /** Event `i` is something the user types at the prompt. */
  predicate TypesAt(events: seq<Event>, i: nat)
    requires i < |events|
  {
    events[i].ClientTypes? && After(events, i).client == AtPrompt
  }

  /** The last number typed after a push, or zero. */
  function Held(events: seq<Event>, k: nat): int
    requires k <= |events|
  {
    if k == 0 then 0
    else if TypesAt(events, k - 1) && events[k - 1].typed.PushValue? then events[k - 1].typed.value
    else Held(events, k - 1)
  }

  /** The requests the user typed and the pipe took, in order. */
  function TypedLog(events: seq<Event>, k: nat): seq<Request>
    requires k <= |events|
  {
    if k == 0 then []
    else
      var before := TypedLog(events, k - 1);
      if TypesAt(events, k - 1) && events[k - 1].writeOk then
        match Wanted(Held(events, k - 1), events[k - 1].typed)
        case Some(r) => before + [r]
        case None => before
      else before
  }

  lemma TypeIs(j: Joint, typed: Typed, writeOk: bool)
    requires j.client == AtPrompt
    ensures var (t, r) := (Type(j, typed, writeOk), Wanted(j.buffer.argument, typed));
      && t.sent == j.sent + (if writeOk && r.Some? then [r.value] else [])
      && t.toServer == j.toServer + (if writeOk && r.Some? then [r.value] else [])
      && t.buffer.argument == (if typed.PushValue? then typed.value else j.buffer.argument)
      && t.client == (if typed.Exit? || (r.Some? && !writeOk) then Gone else if r.Some? then AwaitingAck else AtPrompt)
      && t.stack == j.stack && t.server == j.server && t.toClient == j.toClient && t.acked == j.acked
      && t.received == j.received
  {
  }

  lemma OthersDoNotType(j: Joint, e: Event)
    requires !(e.ClientTypes? && j.client == AtPrompt)
    ensures Next(j, e).sent == j.sent && Next(j, e).buffer == j.buffer
  {
  }

  /** The client sends exactly what the user types: the commands by their codes, and after a
      push the number that was typed. */
  lemma {:induction false} SentIsTyped(events: seq<Event>, k: nat)
    requires k <= |events|
    ensures After(events, k).sent == TypedLog(events, k)
    ensures After(events, k).buffer.argument == Held(events, k)
  {
    if k > 0 {
      var j, e := After(events, k - 1), events[k - 1];
      SentIsTyped(events, k - 1);
      if TypesAt(events, k - 1) { TypeIs(j, e.typed, e.writeOk); } else { OthersDoNotType(j, e); }
    }
  }

  /** A server that is still serving holds the stack of what was typed, up to the last request it
      has taken in. */
  lemma StackIsTyped(events: seq<Event>)
    ensures var (j, typed) := (After(events, |events|), TypedLog(events, |events|));
      j.server in {Reading, Acking} ==>
        && |j.received| <= |typed| <= |j.received| + 1 && j.stack == Fold(typed, |j.received|)
        && (j.client == AtPrompt ==> j.stack == Fold(typed, |typed|))
  {
    SentIsTyped(events, |events|);
    LockStepRefinesFold(events);
  }

  /** A whole trip: from any reachable state in which both sides are idle, what is typed is sent,
      carried out and acknowledged, and both sides are idle again. */
  lemma Trip(events: seq<Event>, typed: Typed)
    requires var j := After(events, |events|); j.client == AtPrompt && j.server == Reading
    requires Wanted(Held(events, |events|), typed).Some?
    ensures var (j, r) := (After(events, |events|), Wanted(Held(events, |events|), typed).value);
      var done := Next(Next(Next(Next(j, ClientTypes(typed, true)), ServerReads), ServerAcks), ClientReadsAck);
      && done.client == AtPrompt && done.server == Reading && done.acked == j.acked + 1
      && done.sent == j.sent + [r] && done.received == j.received + [r] && done.stack == Exec(j.stack, r)
  {
    var j := After(events, |events|);
    EveryStateIsFaithful(events, |events|);
    SentIsTyped(events, |events|);
    TripFrom(j, typed, Wanted(j.buffer.argument, typed).value);
  }

  lemma TripFrom(j: Joint, typed: Typed, r: Request)
    requires j.client == AtPrompt && j.server == Reading && j.toServer == [] && j.toClient == []
    requires Wanted(j.buffer.argument, typed) == Some(r)
    ensures var done := Next(Next(Next(Next(j, ClientTypes(typed, true)), ServerReads), ServerAcks), ClientReadsAck);
      && done.client == AtPrompt && done.server == Reading && done.acked == j.acked + 1
      && done.sent == j.sent + [r] && done.received == j.received + [r] && done.stack == Exec(j.stack, r)
  {
    TypeIs(j, typed, true);
    var a := Type(j, typed, true);
    assert a.toServer == [r] && r.command != SERVEREXIT;
    TakenAndAcknowledged(a, r);
  }

  lemma TakenAndAcknowledged(a: Joint, r: Request)
    requires a.client == AwaitingAck && a.server == Reading && a.toServer == [r] && a.toClient == []
    requires r.command != SERVEREXIT
    ensures var done := Next(Next(Next(a, ServerReads), ServerAcks), ClientReadsAck);
      && done.client == AtPrompt && done.server == Reading && done.acked == a.acked + 1
      && done.sent == a.sent && done.received == a.received + [r] && done.stack == Exec(a.stack, r)
  {
  }

  /** A wrong acknowledgement would end the client, and an exit command the server. */
  lemma WhatNeverHappens(j: Joint)
    ensures j.client == AwaitingAck && j.toClient != [] && j.toClient[0] != 1 ==>
      Next(j, ClientReadsAck).client == Gone && Next(j, ClientReadsAck).wrongAck
    ensures j.server == Reading && j.toServer != [] && j.toServer[0].command == -1 ==>
      Next(j, ServerReads).server == Stopped && Next(j, ServerReads).stack == []
  {
  }

  predicate ClientEnds(j: Joint, e: Event) {
    || (j.client == AtPrompt && e.ClientTypes? && (e.typed.Exit? || (!e.writeOk && Wanted(0, e.typed).Some?)))
    || (j.client == AwaitingAck && e.ClientReadFails?)
  }

  predicate ServerEnds(j: Joint, e: Event) {
    (j.server == Reading && e.ServerReadFails?) || (j.server == Acking && e.ServerAckFails?)
  }

  /** A client that exits, or whose pipe fails, sends nothing more. */
  lemma {:induction false} EndedClientIsSilent(events: seq<Event>, k: nat, m: nat)
    requires k < m <= |events| && ClientEnds(After(events, k), events[k])
    ensures After(events, m).client == Gone && After(events, m).sent == After(events, k).sent
  {
    if k + 1 < m { EndedClientIsSilent(events, k, m - 1); }
  }

  /** A server whose pipe fails has cleared its stack, and takes in nothing more. */
  lemma {:induction false} EndedServerIsSilent(events: seq<Event>, k: nat, m: nat)
    requires k < m <= |events| && ServerEnds(After(events, k), events[k])
    ensures var j := After(events, m);
      j.server == Broken && j.stack == [] && j.received == After(events, k).received
  {
    if k + 1 < m { EndedServerIsSilent(events, k, m - 1); }
  }

  // ---- the same requests through the server's command loop ----

  function AsTurns(rs: seq<Request>): (r: seq<Turn>)
    ensures |r| == |rs| && forall i :: 0 <= i < |r| ==> r[i] == Reads(rs[i], true)
  {
    seq(|rs|, i requires 0 <= i < |rs| => Reads(rs[i], true))
  }

  /** Requests without an exit keep the command loop running on exactly the folded stack. */
  lemma {:induction false} LoopFolds(rs: seq<Request>, k: nat)
    requires k <= |rs| && forall i :: 0 <= i < |rs| ==> rs[i].command != SERVEREXIT
    ensures PlayAll(AsTurns(rs), k).status == Running && PlayAll(AsTurns(rs), k).stack == Fold(rs, k)
  {
    if k > 0 { LoopFolds(rs, k - 1); }
  }

  /** Each of them prints its answer to the stack it meets. */
  lemma {:induction false} LoopPrints(rs: seq<Request>, k: nat)
    requires k <= |rs| && forall i :: 0 <= i < |rs| ==> rs[i].command != SERVEREXIT
    ensures PlayAll(AsTurns(rs), k).outputs == Answers(rs, k)
  {
    if k > 0 {
      LoopFolds(rs, k - 1);
      LoopPrints(rs, k - 1);
    }
  }

  function Answers(rs: seq<Request>, k: nat): (r: seq<Output>)
    requires k <= |rs|
    ensures |r| == k && forall i {:trigger r[i]} :: 0 <= i < k ==> r[i] == Answer(Fold(rs, i), rs[i])
  {
    if k == 0 then [] else Answers(rs, k - 1) + [Answer(Fold(rs, k - 1), rs[k - 1])]
  }

  /** The server's linked stack in a reachable joint state: the command loop on the requests
      received so far builds exactly the stack the joint state holds while the server serves,
      the fold of the first k or k + 1 requests sent, and owns all live node cells. */
  method ServeReceived(events: seq<Event>) returns (stack: Stack, heap: ProcessHeap)
    ensures var j := After(events, |events|);
      && stack.Valid() && stack.Owns(heap)
      && stack.vals == Fold(j.received, |j.received|)
      && (j.server in {Reading, Acking} ==>
            && |j.received| <= |j.sent| && stack.vals == j.stack == Fold(j.sent, |j.received|)
            && j.acked <= |j.received| <= j.acked + 1)
  {
    var j := After(events, |events|);
    EveryStateIsFaithful(events, |events|);
    ExitIsNeverReceived(events);
    LockStepRefinesFold(events);
    var status, outputs;
    status, outputs, stack, heap := ServerJob(AsTurns(j.received));
    LoopFolds(j.received, |j.received|);
  }
}
