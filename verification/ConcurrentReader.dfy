/** A sync handler reads the pool by position while the syncer inserts at its head and removes
    peers that do not answer. Each list call is atomic; the calls of the two threads interleave
    in any way. */
module ConcurrentReader {
  import opened Options
  import Sequences

  datatype Action<T> = Insert(val: T) | Delete(ix: nat) | Read

  /** The handler captured `count` at the start, and stands at position `next`. For each frame
      sent, `origins` says which starting entry it is; it is negative for a later insert. */
  datatype Handler<T> = Handler(pool: seq<T>, count: nat, next: nat, frames: seq<T>, origins: seq<int>, crashed: bool)

  function Start<T>(pool: seq<T>): Handler<T> {
    Handler(pool, |pool|, 0, [], [], false)
  }

  /** A read beyond the list is a null dereference in the source. */
  function Act<T>(h: Handler<T>, a: Action<T>): Handler<T> {
    match a
    case Insert(x) => h.(pool := [x] + h.pool)
    case Delete(ix) => if ix < |h.pool| then h.(pool := Sequences.RemoveAt(h.pool, ix)) else h
    case Read =>
      if h.crashed || h.next >= h.count then h
      else if h.next >= |h.pool| then h.(crashed := true)
      else h.(next := h.next + 1, frames := h.frames + [h.pool[h.next]],
              origins := h.origins + [h.next - (|h.pool| - h.count)])
  }

  function After<T>(start: seq<T>, actions: seq<Action<T>>, k: nat): Handler<T>
    requires k <= |actions|
  {
    if k == 0 then Start(start) else Act(After(start, actions, k - 1), actions[k - 1])
  }

  function Inserts<T>(actions: seq<Action<T>>, k: nat): nat
    requires k <= |actions|
  {
    if k == 0 then 0 else Inserts(actions, k - 1) + if actions[k - 1].Insert? then 1 else 0
  }

  /** The removals that took effect: those whose position was in the list at that moment. */
  function Deletes<T>(start: seq<T>, actions: seq<Action<T>>, k: nat): (d: nat)
    requires k <= |actions|
    ensures d <= |start| + Inserts(actions, k)
  {
    if k == 0 then 0
    else
      var d, a := Deletes(start, actions, k - 1), actions[k - 1];
      d + if a.Delete? && a.ix < |start| + Inserts(actions, k - 1) - d then 1 else 0
  }

  function ReadCount<T>(actions: seq<Action<T>>, k: nat): nat
    requires k <= |actions|
  {
    if k == 0 then 0 else ReadCount(actions, k - 1) + if actions[k - 1].Read? then 1 else 0
  }

  /** Action `j` is a read the handler still makes, and the removals so far, less the inserts so
      far, leave no entry at its position. */
  predicate RunsOut<T>(start: seq<T>, actions: seq<Action<T>>, j: nat)
    requires j < |actions|
  {
    && actions[j].Read? && ReadCount(actions, j) < |start|
    && |start| + Inserts(actions, j) <= Deletes(start, actions, j) + ReadCount(actions, j)
  }

  // ---- which runs crash ----

  /** Frame `n` is the pool entry at position `n`, where the handler stands. */
  predicate WasAt<T(==)>(h: Handler<T>, n: nat, frame: T) {
    h.next == n < |h.pool| && h.pool[n] == frame
  }

  lemma {:induction false} PoolSize<T>(start: seq<T>, actions: seq<Action<T>>, k: nat)
    requires k <= |actions|
    ensures |After(start, actions, k).pool| == |start| + Inserts(actions, k) - Deletes(start, actions, k)
    ensures After(start, actions, k).count == |start|
  {
    if k > 0 { PoolSize(start, actions, k - 1); }
  }

  /** As long as nothing has crashed, the handler has made every read asked of it, up to the
      captured count. */
  lemma {:induction false} Position<T>(start: seq<T>, actions: seq<Action<T>>, k: nat)
    requires k <= |actions| && !After(start, actions, k).crashed
    ensures After(start, actions, k).next == if ReadCount(actions, k) < |start| then ReadCount(actions, k) else |start|
  {
    if k > 0 {
      PoolSize(start, actions, k - 1);
      Position(start, actions, k - 1);
    }
  }

  lemma CrashStep<T>(start: seq<T>, actions: seq<Action<T>>, k: nat)
    requires k < |actions|
    ensures After(start, actions, k).crashed ==> After(start, actions, k + 1).crashed
    ensures !After(start, actions, k).crashed ==> (After(start, actions, k + 1).crashed <==> RunsOut(start, actions, k))
  {
    PoolSize(start, actions, k);
    if !After(start, actions, k).crashed { Position(start, actions, k); }
  }

  /** In any run, removals included, the handler reads past the list exactly when some read runs
      out. */
  lemma {:induction false} CrashesExactlyWhen<T>(start: seq<T>, actions: seq<Action<T>>, k: nat)
    requires k <= |actions|
    ensures After(start, actions, k).crashed <==> exists j :: 0 <= j < k && RunsOut(start, actions, j)
  {
    if k > 0 {
      CrashesExactlyWhen(start, actions, k - 1);
      CrashStep(start, actions, k - 1);
      if j :| 0 <= j < k && RunsOut(start, actions, j) {
        assert j < k - 1 || RunsOut(start, actions, k - 1);
      }
    }
  }

  lemma {:induction false} OneFramePerPosition<T>(start: seq<T>, actions: seq<Action<T>>, k: nat)
    requires k <= |actions|
    ensures |After(start, actions, k).frames| == After(start, actions, k).next
  {
    if k > 0 { OneFramePerPosition(start, actions, k - 1); }
  }

  /** In any run every frame was the pool entry at its position at the moment it was read. */
  lemma {:induction false} FramesComeFromThePool<T>(start: seq<T>, actions: seq<Action<T>>, k: nat, n: nat)
    returns (i: nat)
    requires k <= |actions| && n < |After(start, actions, k).frames|
    ensures i < k && actions[i] == Read && WasAt(After(start, actions, i), n, After(start, actions, k).frames[n])
  {
    i := k - 1;
    var was := After(start, actions, i);
    if n < |was.frames| {
      i := FramesComeFromThePool(start, actions, i, n);
    } else {
      OneFramePerPosition(start, actions, i);
    }
  }

  /** Removals paid for by earlier inserts do no harm. */
  lemma PaidRemovalsAreSafe<T>(start: seq<T>, actions: seq<Action<T>>)
    requires forall j :: 0 <= j < |actions| && actions[j].Read? ==> Deletes(start, actions, j) <= Inserts(actions, j)
    ensures !After(start, actions, |actions|).crashed
  {
    CrashesExactlyWhen(start, actions, |actions|);
  }

  // ---- which entries are sent ----

  /** Where starting entry `i` stands after `k` actions: an insert moves it back by one, a removal
      in front of it up by one, and its own removal takes it away. */
  function Where<T>(start: seq<T>, actions: seq<Action<T>>, k: nat, i: nat): Option<nat>
    requires k <= |actions|
  {
    if k == 0 then Some(i)
    else
      match Where(start, actions, k - 1, i)
      case None => None
      case Some(p) =>
        match actions[k - 1]
        case Insert(_) => Some(p + 1)
        case Delete(ix) => if ix < p then Some(p - 1) else if ix == p then None else Some(p)
        case Read => Some(p)
  }

  lemma EntryMoves<T>(h: Handler<T>, a: Action<T>, p: nat)
    requires p < |h.pool|
    ensures a.Insert? ==> Act(h, a).pool[p + 1] == h.pool[p] && |Act(h, a).pool| == |h.pool| + 1
    ensures a.Delete? && a.ix < p ==> Act(h, a).pool[p - 1] == h.pool[p] && |Act(h, a).pool| == |h.pool| - 1
    ensures a.Delete? && a.ix > p ==> p < |Act(h, a).pool| && Act(h, a).pool[p] == h.pool[p]
    ensures a.Read? ==> Act(h, a).pool == h.pool
  {
  }

  lemma {:induction false} StandsThere<T>(start: seq<T>, actions: seq<Action<T>>, k: nat, i: nat)
    requires k <= |actions| && i < |start| && Where(start, actions, k, i).Some?
    ensures var (h, p) := (After(start, actions, k), Where(start, actions, k, i).value);
      p < |h.pool| && h.pool[p] == start[i]
  {
    if k > 0 {
      StandsThere(start, actions, k - 1, i);
      EntryMoves(After(start, actions, k - 1), actions[k - 1], Where(start, actions, k - 1, i).value);
    }
  }

  /** Entries never change their order. */
  lemma {:induction false} OrderIsKept<T>(start: seq<T>, actions: seq<Action<T>>, k: nat, i: nat, j: nat)
    requires k <= |actions| && i < j
    requires Where(start, actions, k, i).Some? && Where(start, actions, k, j).Some?
    ensures Where(start, actions, k, i).value < Where(start, actions, k, j).value
  {
    if k > 0 { OrderIsKept(start, actions, k - 1, i, j); }
  }

  /** A read sends the starting entry that stands where the handler does, in any run. */
  lemma ReadSends<T>(start: seq<T>, actions: seq<Action<T>>, k: nat, i: nat)
    requires k < |actions| && actions[k] == Read && i < |start|
    requires var h := After(start, actions, k);
      !h.crashed && h.next < |start| && Where(start, actions, k, i) == Some(h.next)
    ensures After(start, actions, k + 1).frames == After(start, actions, k).frames + [start[i]]
  {
    StandsThere(start, actions, k, i);
    PoolSize(start, actions, k);
  }

  // ---- beside head inserts alone ----

  /** After `ins` inserts: nothing crashed, the starting entries sit behind the inserted ones,
      and each frame is a pool entry, the starting entry its origin names. */
  ghost predicate InStep<T>(start: seq<T>, h: Handler<T>, ins: nat) {
    && !h.crashed && h.count == |start| && h.next <= h.count
    && |h.pool| == |start| + ins && h.pool[ins..] == start
    && |h.frames| == |h.origins| == h.next
    && forall j :: 0 <= j < h.next ==>
         0 <= ins + h.origins[j] < ins + |start| && h.frames[j] == h.pool[ins + h.origins[j]]
  }

  /** The starting entries sent are exactly those below `m`. */
  ghost predicate SentBelow<T>(h: Handler<T>, m: nat) {
    && (forall j :: 0 <= j < |h.origins| ==> h.origins[j] < m)
    && (forall i :: 0 <= i < m ==> i in h.origins)
  }

  /** Every read of a handler that runs beside head inserts is in range, whatever the
      interleaving, and every frame is the starting entry its origin names. */
  lemma {:induction false} FramesBesideInserts<T>(start: seq<T>, actions: seq<Action<T>>, k: nat)
    requires k <= |actions|
    requires forall i :: 0 <= i < |actions| ==> !actions[i].Delete?
    ensures InStep(start, After(start, actions, k), Inserts(actions, k))
  {
    if k > 0 {
      FramesBesideInserts(start, actions, k - 1);
      var h, ins := After(start, actions, k - 1), Inserts(actions, k - 1);
      match actions[k - 1]
      case Insert(x) =>
        assert ([x] + h.pool)[ins + 1..] == h.pool[ins..];
      case Read =>
    }
  }

  /** The starting entries sent are exactly a prefix of the starting order, at least as long as
      the reads so far less the inserts so far. */
  lemma {:induction false} PrefixIsSent<T>(start: seq<T>, actions: seq<Action<T>>, k: nat) returns (m: nat)
    requires k <= |actions|
    requires forall i :: 0 <= i < |actions| ==> !actions[i].Delete?
    ensures var h := After(start, actions, k);
      m <= |start| && SentBelow(h, m) && m >= h.next - Inserts(actions, k)
  {
    m := 0;
    if k > 0 {
      m := PrefixIsSent(start, actions, k - 1);
      FramesBesideInserts(start, actions, k - 1);
      var h, ins := After(start, actions, k - 1), Inserts(actions, k - 1);
      if actions[k - 1].Read? && h.next < h.count { m := SentOneMore(h, ins, m); }
    }
  }

  lemma SentOneMore<T>(h: Handler<T>, ins: nat, sent: nat) returns (m: nat)
    requires !h.crashed && h.next < h.count <= |h.pool| == h.count + ins
    requires SentBelow(h, sent) && sent <= h.count && sent >= h.next - ins
    ensures m <= h.count && SentBelow(Act(h, Read), m) && m >= h.next + 1 - ins
  {
    var p := h.next - ins;
    var now := h.origins + [p];
    assert Act(h, Read).origins == now;
    m := if p == sent then sent + 1 else sent;
    forall i | 0 <= i < m
      ensures i in now
    {
      if i < sent { assert i in h.origins; } else { assert now[|h.origins|] == i; }
    }
  }

  /** Once the handler has sent all its frames, at most one starting entry is missing per
      insert that came in between, and the missing ones are the last. */
  lemma FinishedHandler<T>(start: seq<T>, actions: seq<Action<T>>) returns (m: nat)
    requires forall i :: 0 <= i < |actions| ==> !actions[i].Delete?
    requires After(start, actions, |actions|).next == |start|
    ensures m <= |start| && m >= |start| - Inserts(actions, |actions|)
    ensures SentBelow(After(start, actions, |actions|), m)
  {
    m := PrefixIsSent(start, actions, |actions|);
  }

  // ---- one removal is enough ----

  function Reads<T>(n: nat): (r: seq<Action<T>>)
    ensures |r| == n && forall i :: 0 <= i < n ==> r[i] == Read
  {
    seq(n, _ => Read)
  }

  lemma {:induction false} PlainReads<T>(start: seq<T>, actions: seq<Action<T>>, k: nat)
    requires k <= |actions| && forall i :: 0 <= i < k ==> actions[i] == Read
    ensures ReadCount(actions, k) == k && Inserts(actions, k) == Deletes(start, actions, k) == 0
  {
    if k > 0 { PlainReads(start, actions, k - 1); }
  }

  /** For every non-empty pool a single removal at the right moment sends the last read past the
      end of the list. */
  lemma OneRemovalCrashesTheReader<T>(start: seq<T>)
    requires start != []
    ensures var actions := Reads(|start| - 1) + [Delete(0), Read];
      After(start, actions, |start| + 1).crashed
  {
    var n := |start|;
    var actions := Reads(n - 1) + [Delete(0), Read];
    PlainReads(start, actions, n - 1);
    assert actions[n - 1] == Delete(0) && actions[n] == Read;
    assert RunsOut(start, actions, n);
    CrashesExactlyWhen(start, actions, n + 1);
  }
}
