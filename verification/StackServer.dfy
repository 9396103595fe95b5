/** The Lab 1 server: its command loop over the linked stack, against a plain interpreter. */
module StackServer {
  import opened IntStack
  import opened Sequences

  const SERVERHELP: int := -2
  const SERVEREXIT: int := -1
  const STACKPEEK: int := 0
  const STACKPOP: int := 1
  const STACKPUSH: int := 2
  const STACKNEW: int := 3
  const STACKSIZE: int := 4
  const STACKISEMPTY: int := 5
  const STACKDISPLAY: int := 6

  /** Both words of the request buffer. */
  datatype Request = Request(command: int, argument: int)

  /** What the server prints for a command. */
  datatype Output =
    | Peeked(value: int) | Popped(value: int) | Pushed(value: int) | NewStack
    | Size(size: nat) | IsEmpty(empty: bool) | Displayed(fromTop: seq<int>) | Help | Nothing

  // ---- the plain interpreter: a stack is a sequence, bottom first ----

  function Top(s: seq<int>): int {
    if s == [] then -1 else s[|s| - 1]
  }

  function Exec(s: seq<int>, r: Request): seq<int> {
    if r.command == STACKPOP then (if s == [] then [] else s[..|s| - 1])
    else if r.command == STACKPUSH then s + [r.argument]
    else if r.command == STACKNEW then []
    else s
  }

  function Answer(s: seq<int>, r: Request): Output {
    if r.command == STACKPEEK then Peeked(Top(s))
    else if r.command == STACKPOP then Popped(Top(s))
    else if r.command == STACKPUSH then Pushed(r.argument)
    else if r.command == STACKNEW then NewStack
    else if r.command == STACKSIZE then Size(|s|)
    else if r.command == STACKISEMPTY then IsEmpty(s == [])
    else if r.command == STACKDISPLAY then Displayed(Reversed(s))
    else if r.command == SERVERHELP then Help
    else Nothing
  }

  /** The stack after the first `k` requests. */
  function Fold(rs: seq<Request>, k: nat): seq<int>
    requires k <= |rs|
  {
    if k == 0 then [] else Exec(Fold(rs, k - 1), rs[k - 1])
  }

  /** Whatever the second word holds, only a push can tell: two runs whose requests differ in
      that word alone, outside of pushes, leave the same stack and print the same. */
  lemma {:induction false} StaleWordIsIgnored(a: seq<Request>, b: seq<Request>, k: nat)
    requires k <= |a| == |b|
    requires forall i :: 0 <= i < |a| ==>
      a[i].command == b[i].command && (a[i].command == 2 ==> a[i].argument == b[i].argument)
    ensures Fold(a, k) == Fold(b, k)
    ensures k < |a| ==> Answer(Fold(a, k), a[k]) == Answer(Fold(b, k), b[k])
  {
    if k > 0 { StaleWordIsIgnored(a, b, k - 1); }
  }

  // ---- the laws of a stack, by the codes that go over the pipe ----

  /** A push is undone by a pop, which prints what was pushed. */
  lemma PushThenPop(s: seq<int>, v: int, stale: int)
    ensures var pushed := Exec(s, Request(2, v));
      && Answer(s, Request(2, v)) == Pushed(v)
      && Answer(pushed, Request(1, stale)) == Popped(v) && Exec(pushed, Request(1, stale)) == s
      && Answer(pushed, Request(0, stale)) == Peeked(v) && Exec(pushed, Request(0, stale)) == pushed
      && Answer(pushed, Request(4, stale)) == Size(|s| + 1)
      && Answer(pushed, Request(5, stale)) == IsEmpty(false)
      && Answer(pushed, Request(6, stale)) == Displayed([v] + Reversed(s))
  {
    assert Reversed(s + [v]) == [v] + Reversed(s);
  }

  /** An empty stack prints -1 and stays empty; a new stack is empty. */
  lemma EmptyStack(s: seq<int>, stale: int)
    ensures Answer([], Request(1, stale)) == Popped(-1) && Exec([], Request(1, stale)) == []
    ensures Answer([], Request(0, stale)) == Peeked(-1)
    ensures Answer([], Request(4, stale)) == Size(0) && Answer([], Request(5, stale)) == IsEmpty(true)
    ensures Answer([], Request(6, stale)) == Displayed([])
    ensures Exec(s, Request(3, stale)) == [] && Answer(s, Request(3, stale)) == NewStack
  {
  }

  /** Every other command leaves the stack alone; only the commands of the list print. */
  lemma OtherCommands(s: seq<int>, r: Request)
    ensures r.command !in {1, 2, 3} ==> Exec(s, r) == s
    ensures r.command == -2 ==> Answer(s, r) == Help
    ensures r.command !in {-2, 0, 1, 2, 3, 4, 5, 6} ==> Answer(s, r) == Nothing
  {
  }

  function Pushes(vs: seq<int>): (rs: seq<Request>)
    ensures |rs| == |vs| && forall i :: 0 <= i < |vs| ==> rs[i] == Request(2, vs[i])
  {
    seq(|vs|, i requires 0 <= i < |vs| => Request(2, vs[i]))
  }

  /** Pushes pile up in order. */
  lemma {:induction false} PushesPileUp(vs: seq<int>, k: nat)
    requires k <= |vs|
    ensures Fold(Pushes(vs), k) == vs[..k]
  {
    if k > 0 {
      PushesPileUp(vs, k - 1);
      assert vs[..k] == vs[..k - 1] + [vs[k - 1]];
    }
  }

  /** Any history: a push then a pop leaves the stack as it was. */
  lemma PushThenPopInHistory(rs: seq<Request>, v: int, stale: int)
    ensures var pushed := rs + [Request(2, v)];
      && Fold(pushed + [Request(1, stale)], |rs| + 2) == Fold(rs, |rs|)
      && Answer(Fold(pushed, |rs| + 1), Request(1, stale)) == Popped(v)
  {
    FoldOneMore(rs, Request(2, v));
    FoldOneMore(rs + [Request(2, v)], Request(1, stale));
    PushThenPop(Fold(rs, |rs|), v, stale);
  }

  lemma FoldOneMore(rs: seq<Request>, r: Request)
    ensures Fold(rs + [r], |rs| + 1) == Exec(Fold(rs, |rs|), r)
  {
    FoldAppend(rs, r, |rs|);
  }

  lemma {:induction false} FoldAppend(rs: seq<Request>, r: Request, k: nat)
    requires k <= |rs|
    ensures Fold(rs + [r], k) == Fold(rs, k)
  {
    if k > 0 { FoldAppend(rs, r, k - 1); }
  }

  lemma {:induction false} FoldPrefix(rs: seq<Request>, k: nat, m: nat)
    requires k <= m <= |rs|
    ensures Fold(rs[..m], k) == Fold(rs, k)
  {
    if k > 0 { FoldPrefix(rs, k - 1, m); }
  }

  // ---- the command loop ----

  /** What one turn of the loop meets: a failing read, or a request and whether it could be
      acknowledged. */
  datatype Turn = ReadFails | Reads(request: Request, ackOk: bool)

  datatype Status = Running | Exited | Failed

  datatype Session = Session(status: Status, stack: seq<int>, outputs: seq<Output>, pushes: nat)

  function Play(s: Session, t: Turn): Session {
    if s.status != Running then s
    else match t
      case ReadFails => s.(status := Failed, stack := [])
      case Reads(r, ackOk) =>
        if r.command == SERVEREXIT then s.(status := Exited, stack := [])
        else
          var done := s.(stack := Exec(s.stack, r), outputs := s.outputs + [Answer(s.stack, r)],
                         pushes := s.pushes + if r.command == STACKPUSH then 1 else 0);
          if ackOk then done else done.(status := Failed, stack := [])
  }

  function PlayAll(turns: seq<Turn>, k: nat): Session
    requires k <= |turns|
  {
    if k == 0 then Session(Running, [], [], 0) else Play(PlayAll(turns, k - 1), turns[k - 1])
  }

  /** A turn after which the loop goes on: a request is read, is no exit, and is acknowledged. */
  predicate GoesOn(t: Turn) {
    t.Reads? && t.ackOk && t.request.command != -1
  }

  /** The loop runs as long as every turn goes on. It ends in an orderly way exactly when the
      first turn that does not is an exit command, and in a failure otherwise. */
  lemma {:induction false} StatusIs(turns: seq<Turn>, k: nat)
    requires k <= |turns|
    ensures PlayAll(turns, k).status == Running <==> forall i :: 0 <= i < k ==> GoesOn(turns[i])
    ensures PlayAll(turns, k).status == Exited <==> exists i :: 0 <= i < k && ExitsAt(turns, i)
  {
    if k > 0 {
      StatusIs(turns, k - 1);
      assert ExitsAt(turns, k - 1) <==>
             PlayAll(turns, k - 1).status == Running && turns[k - 1].Reads? && turns[k - 1].request.command == -1;
      if i :| 0 <= i < k && ExitsAt(turns, i) { assert i == k - 1 || PlayAll(turns, k - 1).status == Exited; }
    }
  }

  predicate ExitsAt(turns: seq<Turn>, i: nat)
    requires i < |turns|
  {
    turns[i].Reads? && turns[i].request.command == -1 && forall j :: 0 <= j < i ==> GoesOn(turns[j])
  }

  /** A request whose acknowledgement fails has still been carried out and printed. */
  lemma CarriedOutUnacknowledged(turns: seq<Turn>, k: nat)
    requires k < |turns| && PlayAll(turns, k).status == Running
    requires turns[k].Reads? && turns[k].request.command != -1
    ensures var s := PlayAll(turns, k);
      PlayAll(turns, k + 1).outputs == s.outputs + [Answer(s.stack, turns[k].request)]
  {
  }

  lemma {:induction false} StoppedIsFinal(turns: seq<Turn>, k: nat, m: nat)
    requires k <= m <= |turns| && PlayAll(turns, k).status != Running
    ensures PlayAll(turns, m) == PlayAll(turns, k)
  {
    if k < m { StoppedIsFinal(turns, k, m - 1); }
  }

  /** Runs one command on the linked stack and returns what is printed. */
  method Handle(stack: Stack, heap: ProcessHeap, r: Request) returns (out: Output)
    requires stack.Valid() && stack.Owns(heap)
    modifies stack, heap
    ensures stack.Valid() && stack.Owns(heap)
    ensures stack.vals == Exec(old(stack.vals), r) && out == Answer(old(stack.vals), r)
    ensures heap.intsAllocated == old(heap.intsAllocated) + if r.command == STACKPUSH then 1 else 0
  {
    if r.command == STACKPEEK {
      var top := stack.PeekInt();
      out := Peeked(top);
    } else if r.command == STACKPOP {
      var top := stack.PopInt(heap);
      out := Popped(top);
    } else if r.command == STACKPUSH {
      var _ := stack.PushInt(heap, r.argument);
      var top := stack.PeekInt();
      out := Pushed(top);
    } else if r.command == STACKNEW {
      stack.Clear(heap);
      stack.Reset();
      out := NewStack;
    } else if r.command == STACKSIZE {
      out := Size(stack.size);
    } else if r.command == STACKISEMPTY {
      out := IsEmpty(!(stack.size > 0));
    } else if r.command == STACKDISPLAY {
      var shown := stack.Display();
      out := Displayed(shown);
    } else if r.command == SERVERHELP {
      out := Help;
    } else {
      out := Nothing;
    }
  }

  /** The whole loop. It ends on a failing read, a failing acknowledgement or the exit command,
      and each of these leaves no live node cell behind; the int cells stay, one per push. When
      the turns run out the server is waiting for its next request. */
  method ServerJob(turns: seq<Turn>) returns (status: Status, outputs: seq<Output>, stack: Stack, heap: ProcessHeap)
    ensures stack.Valid() && stack.Owns(heap)
    ensures Session(status, stack.vals, outputs, heap.intsAllocated) == PlayAll(turns, |turns|)
    ensures status != Running ==> heap.nodes == {} && heap.nodesAllocated == heap.nodesFreed
  {
    heap := new ProcessHeap();
    stack := new Stack();
    status, outputs := Running, [];
    var i := 0;
    while i < |turns|
      invariant i <= |turns| && status == Running && stack.Valid() && stack.Owns(heap)
      invariant fresh(stack) && fresh(heap)
      invariant Session(Running, stack.vals, outputs, heap.intsAllocated) == PlayAll(turns, i)
    {
      if turns[i].ReadFails? {
        status := Failed;
      } else if turns[i].request.command == SERVEREXIT {
        status := Exited;
      } else {
        var out := Handle(stack, heap, turns[i].request);
        outputs := outputs + [out];
        if !turns[i].ackOk { status := Failed; }
      }
      if status != Running {
        stack.Clear(heap);
        StoppedIsFinal(turns, i + 1, |turns|);
        return;
      }
      i := i + 1;
    }
  }
}
