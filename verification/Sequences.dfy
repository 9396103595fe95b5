/** What the list operations mean on plain sequences. */
module Sequences {

  function InsertAt<T>(s: seq<T>, ix: nat, v: T): seq<T>
    requires s == [] || ix <= |s|
  {
    if s == [] then [v] else s[..ix] + [v] + s[ix..]
  }

  function RemoveAt<T>(s: seq<T>, ix: nat): seq<T>
    requires ix < |s|
  {
    s[..ix] + s[ix + 1..]
  }

  /** The least position of `v`, or -1. */
  function FirstIndex<T(==)>(s: seq<T>, v: T): (ix: int)
    ensures -1 <= ix < |s|
  {
    if s == [] then -1
    else if s[0] == v then 0
    else
      var rest := FirstIndex(s[1..], v);
      if rest == -1 then -1 else rest + 1
  }

  /** An insert puts the value at the index and moves what was there back; into an empty list any
      index will do. */
  lemma InsertPlaces<T>(s: seq<T>, ix: nat, v: T)
    requires s == [] || ix <= |s|
    ensures var r := InsertAt(s, ix, v);
      && |r| == |s| + 1
      && (s == [] ==> r == [v])
      && (s != [] ==> r[ix] == v)
      && (forall j :: 0 <= j < |s| ==> r[if j < ix then j else j + 1] == s[j])
  {
  }

  /** A removal takes out the entry at the index and moves what is behind it up. */
  lemma RemovePlaces<T>(s: seq<T>, ix: nat)
    requires ix < |s|
    ensures var r := RemoveAt(s, ix);
      && |r| == |s| - 1
      && (forall j :: 0 <= j < |s| && j != ix ==> r[if j < ix then j else j - 1] == s[j])
  {
  }

  lemma {:induction false} FirstIndexFinds<T>(s: seq<T>, v: T)
    ensures v in s <==> FirstIndex(s, v) >= 0
    ensures FirstIndex(s, v) >= 0 ==> s[FirstIndex(s, v)] == v
    ensures forall j :: 0 <= j < FirstIndex(s, v) ==> s[j] != v
  {
    if s != [] { FirstIndexFinds(s[1..], v); }
  }

  function RemoveFirst<T(==)>(s: seq<T>, v: T): seq<T> {
    if s == [] then []
    else if s[0] == v then s[1..]
    else [s[0]] + RemoveFirst(s[1..], v)
  }

  lemma {:induction false} RemoveFirstIsRemoveAt<T>(s: seq<T>, v: T)
    ensures RemoveFirst(s, v) == if FirstIndex(s, v) >= 0 then RemoveAt(s, FirstIndex(s, v)) else s
  {
    if s == [] {
    } else if s[0] == v {
      assert RemoveAt(s, 0) == s[1..];
    } else {
      RemoveFirstIsRemoveAt(s[1..], v);
      var ix := FirstIndex(s[1..], v);
      if ix >= 0 {
        RemoveBehindHead(s, ix);
      } else {
        assert [s[0]] + s[1..] == s;
      }
    }
  }

  lemma RemoveBehindHead<T>(s: seq<T>, ix: nat)
    requires ix < |s| - 1
    ensures RemoveAt(s, ix + 1) == [s[0]] + RemoveAt(s[1..], ix)
  {
    assert s[..ix + 1] == [s[0]] + s[1..][..ix] && s[ix + 2..] == s[1..][ix + 1..];
  }

  ghost predicate Distinct<T>(s: seq<T>) {
    forall i, j :: 0 <= i < j < |s| ==> s[i] != s[j]
  }

  /** Removing the first equal record takes away exactly one copy, or nothing at all. */
  lemma {:induction false} RemoveFirstTakesOneCopy<T>(s: seq<T>, v: T)
    ensures v in s ==> multiset(s) == multiset(RemoveFirst(s, v)) + multiset{v}
    ensures v in s ==> |s| == |RemoveFirst(s, v)| + 1
    ensures v !in s ==> RemoveFirst(s, v) == s
  {
    if s != [] {
      assert s == [s[0]] + s[1..];
      assert multiset(s) == multiset{s[0]} + multiset(s[1..]);
      if s[0] != v {
        RemoveFirstTakesOneCopy(s[1..], v);
        assert multiset(RemoveFirst(s, v)) == multiset{s[0]} + multiset(RemoveFirst(s[1..], v));
      }
    }
  }

  lemma {:induction false} RemoveFirstElements<T>(s: seq<T>, v: T)
    ensures forall x :: x in RemoveFirst(s, v) ==> x in s
    ensures forall x :: x in s ==> x == v || x in RemoveFirst(s, v)
  {
    if s != [] {
      assert s == [s[0]] + s[1..];
      RemoveFirstElements(s[1..], v);
    }
  }

  lemma {:induction false} FirstIndexIs<T>(s: seq<T>, i: nat)
    requires i < |s| && s[i] !in s[..i]
    ensures FirstIndex(s, s[i]) == i
  {
    if i > 0 {
      assert s[..i][0] == s[0];
      assert s[1..][..i - 1] == s[..i][1..];
      FirstIndexIs(s[1..], i - 1);
    }
  }

  lemma {:induction false} FirstIndexBound<T>(s: seq<T>, i: nat)
    requires i < |s|
    ensures FirstIndex(s, s[i]) <= i
  {
    if i > 0 { FirstIndexBound(s[1..], i - 1); }
  }

  function Reversed<T>(s: seq<T>): (r: seq<T>)
    ensures |r| == |s| && forall j :: 0 <= j < |s| ==> r[j] == s[|s| - 1 - j]
  {
    seq(|s|, j requires 0 <= j < |s| => s[|s| - 1 - j])
  }

  lemma ReversedElements<T>(s: seq<T>)
    ensures forall x :: x in Reversed(s) ==> x in s
    ensures forall x :: x in s ==> x in Reversed(s)
    ensures Distinct(s) ==> Distinct(Reversed(s))
  {
    forall x | x in s
      ensures x in Reversed(s)
    {
      var j :| 0 <= j < |s| && s[j] == x;
      assert Reversed(s)[|s| - 1 - j] == x;
    }
  }

  // ---- counting ----

  /** How many of the first `n` flags are set. */
  function Count(flags: seq<bool>, n: nat): nat
    requires n <= |flags|
  {
    if n == 0 then 0 else Count(flags, n - 1) + if flags[n - 1] then 1 else 0
  }

  lemma {:induction false} CountIsSize(flags: seq<bool>, n: nat)
    requires n <= |flags|
    ensures Count(flags, n) == |set i | 0 <= i < n && flags[i]|
  {
    if n > 0 {
      CountIsSize(flags, n - 1);
      var was, now := set i | 0 <= i < n - 1 && flags[i], set i | 0 <= i < n && flags[i];
      assert now == was + if flags[n - 1] then {n - 1} else {};
    }
  }

  // ---- runs of list calls ----

  datatype ListCall<T> = Insert(ix: nat, val: T) | Delete(ix: nat)

  /** The return code of a call: 1 when the list rejects it. */
  function Code<T>(s: seq<T>, call: ListCall<T>): int {
    match call
    case Insert(ix, _) => if ix > |s| && |s| != 0 then 1 else 0
    case Delete(ix) => if ix >= |s| then 1 else 0
  }

  function Apply<T>(s: seq<T>, call: ListCall<T>): seq<T> {
    if Code(s, call) != 0 then s
    else match call
      case Insert(ix, v) => InsertAt(s, ix, v)
      case Delete(ix) => RemoveAt(s, ix)
  }

  function ApplyAll<T>(s: seq<T>, calls: seq<ListCall<T>>): seq<T>
    decreases |calls|
  {
    if calls == [] then s else ApplyAll(Apply(s, calls[0]), calls[1..])
  }
}
