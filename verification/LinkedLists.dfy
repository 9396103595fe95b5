/** The doubly linked list both pools are built on, with its pointers updated in place. */
module LinkedLists {
  import opened Options
  import opened Sequences

  class Node<T> {
    var val: T
    var prev: Node?<T>
    var next: Node?<T>

    constructor (val: T)
      ensures this.val == val && prev == null && next == null
    {
      this.val := val;
      prev, next := null, null;
    }
  }

  class LinkedList<T(==)> {
    var size: nat
    var head: Node?<T>
    var tail: Node?<T>

    // The nodes in chain order, and the values they hold.
    ghost var spine: seq<Node<T>>
    ghost var contents: seq<T>
    ghost var repr: set<object>

    ghost predicate Valid()
      reads this, repr
      ensures Valid() ==> this in repr
    {
      && this in repr && (forall n :: n in spine ==> n in repr)
      && size == |spine| == |contents|
      && (size == 0 ==> head == null && tail == null)
      && (size > 0 ==>
            && head == spine[0] && tail == spine[size - 1]
            && head.prev == null && tail.next == null)
      && (forall i {:trigger spine[i].val} {:trigger contents[i]} :: 0 <= i < size ==> spine[i].val == contents[i])
      && (forall i {:trigger spine[i].next} :: 0 <= i < size - 1 ==> spine[i].next == spine[i + 1])
      && (forall i {:trigger spine[i].prev} :: 0 < i < size ==> spine[i].prev == spine[i - 1])
      && Distinct(spine)
    }

    /** The node reached from `head` by `k` forward links. */
    ghost function Forward(k: nat): (n: Node?<T>)
      requires Valid() && k <= size
      reads this, repr
      ensures n == if k < size then spine[k] else null
    {
      if k == 0 then head else Forward(k - 1).next
    }

    /** The node reached from `tail` by `k` backward links. */
    ghost function Backward(k: nat): (n: Node?<T>)
      requires Valid() && k <= size
      reads this, repr
      ensures n == if k < size then spine[size - 1 - k] else null
    {
      if k == 0 then tail else Backward(k - 1).prev
    }

    /** Both directions spell one duplicate-free chain of `size` nodes, each ending in null. */
    lemma {:induction false} LinksMirror()
      requires Valid()
      ensures forall k :: 0 <= k < size ==>
                Forward(k) != null && Forward(k) == Backward(size - 1 - k) && Forward(k).val == contents[k]
      ensures Forward(size) == null && Backward(size) == null
      ensures forall j, k :: 0 <= j < k < size ==> Forward(j) != Forward(k)
    {
    }

    constructor ()
      ensures Valid() && contents == [] && spine == [] && fresh(repr)
    {
      size, head, tail := 0, null, null;
      spine, contents, repr := [], [], {this};
    }

    /** Follows `ix` links from the head; on a list of `size` nodes it stops at the ix-th. */
    method JumpToNode(ix: nat) returns (current: Node<T>)
      requires Valid() && ix < size
      ensures current == spine[ix] && current == Forward(ix)
    {
      current := head;
      for i := 0 to ix
        invariant current == spine[i]
      {
        current := current.next;
      }
    }

    method InitList(node: Node<T>)
      requires Valid() && size == 0
      modifies repr, node
      ensures Valid() && spine == [node] && contents == [old(node.val)] && repr == old(repr) + {node}
    {
      node.prev := null;
      node.next := null;
      head := node;
      tail := node;
      size := size + 1;
      spine, contents, repr := [node], [node.val], repr + {node};
    }

    method AppendNode(node: Node<T>)
      requires Valid() && size > 0 && node !in spine && node.next == null
      modifies repr, node
      ensures Valid() && spine == old(spine) + [node] && contents == old(contents) + [old(node.val)]
      ensures repr == old(repr) + {node}
    {
      var end := tail;
      node.prev := end;
      end.next := node;
      tail := node;
      size := size + 1;
      spine, contents, repr := spine + [node], contents + [node.val], repr + {node};
    }

    method PrependNode(node: Node<T>)
      requires Valid() && size > 0 && node !in spine && node.prev == null
      modifies repr, node
      ensures Valid() && spine == [node] + old(spine) && contents == [old(node.val)] + old(contents)
      ensures repr == old(repr) + {node}
    {
      var begin := head;
      node.next := begin;
      begin.prev := node;
      head := node;
      size := size + 1;
      spine, contents, repr := [node] + spine, [node.val] + contents, repr + {node};
    }

    /** Splices a fresh node in front of the ix-th one, strictly inside the list. */
    method LinkBefore(ix: nat, node: Node<T>)
      requires Valid() && 0 < ix < size && node !in spine
      modifies repr, node
      ensures Valid()
      ensures spine == InsertAt(old(spine), ix, node) && contents == InsertAt(old(contents), ix, old(node.val))
      ensures repr == old(repr) + {node}
    {
      var current := JumpToNode(ix);
      ghost var was, vals := spine, contents;
      spine, contents, repr := InsertAt(was, ix, node), InsertAt(vals, ix, node.val), repr + {node};
      size := size + 1;
      Splice(was, ix, current, node);
      SplicedIsValid(was, vals, ix, node);
    }

    /** The nodes of `was`, with `node` linked in before position `ix`. */
    static ghost predicate LinkedAround(was: seq<Node<T>>, ix: nat, node: Node<T>)
      requires 0 < ix < |was|
      reads was, node
    {
      && (forall i {:trigger was[i].next} :: 0 <= i < |was| - 1 ==>
            was[i].next == if i == ix - 1 then node else was[i + 1])
      && (forall i {:trigger was[i].prev} :: 0 < i < |was| ==>
            was[i].prev == if i == ix then node else was[i - 1])
      && node.prev == was[ix - 1] && node.next == was[ix]
    }

    /** Links `node` between `current` and the node before it. */
    static method Splice(ghost was: seq<Node<T>>, ghost ix: nat, current: Node<T>, node: Node<T>)
      requires 0 < ix < |was| && current == was[ix] && node !in was && Distinct(was)
      requires forall i {:trigger was[i].next} :: 0 <= i < |was| - 1 ==> was[i].next == was[i + 1]
      requires forall i {:trigger was[i].prev} :: 0 < i < |was| ==> was[i].prev == was[i - 1]
      modifies node`prev, node`next, current`prev, current.prev`next
      ensures LinkedAround(was, ix, node)
    {
      node.prev := current.prev;
      node.next := current;
      current.prev.next := node;
      current.prev := node;
    }

    /** The chain `was`, with `node` linked in before position `ix`, is the new list. */
    lemma SplicedIsValid(was: seq<Node<T>>, vals: seq<T>, ix: nat, node: Node<T>)
      requires 0 < ix < |was| == |vals| && node !in was && Distinct(was)
      requires {this, node} <= repr && forall n :: n in was ==> n in repr
      requires spine == InsertAt(was, ix, node) && contents == InsertAt(vals, ix, node.val)
      requires size == |was| + 1 && head == was[0] && tail == was[|was| - 1]
      requires head.prev == null && tail.next == null
      requires forall i :: 0 <= i < |was| ==> was[i].val == vals[i]
      requires LinkedAround(was, ix, node)
      ensures Valid()
    {
    }

    method InsertVal(ix: nat, val: T) returns (code: int)
      requires Valid()
      modifies repr
      ensures Valid()
      ensures code == Code(old(contents), Insert(ix, val))
      ensures contents == Apply(old(contents), Insert(ix, val))
      ensures code == (if old(contents) == [] || ix <= |old(contents)| then 0 else 1)
      ensures old(contents) == [] ==> contents == [val]
      ensures 0 < ix <= |old(contents)| ==> contents == old(contents[..ix]) + [val] + old(contents[ix..])
      ensures ix == 0 ==> contents == [val] + old(contents)
      ensures forall o :: o in repr ==> o in old(repr) || fresh(o)
      ensures code != 0 ==> unchanged(old(repr)) && repr == old(repr)
    {
      if ix > size && size != 0 { return 1; }
      var node := new Node(val);
      if size == 0 {
        InitList(node);
        assert contents == [val] + old(contents);
        return 0;
      }
      if ix == 0 {
        PrependNode(node);
        assert spine == InsertAt(old(spine), ix, node) && contents == InsertAt(old(contents), ix, val);
        return 0;
      }
      if ix == size {
        AppendNode(node);
        assert spine == InsertAt(old(spine), ix, node) && contents == InsertAt(old(contents), ix, val);
        return 0;
      }
      LinkBefore(ix, node);
      return 0;
    }

    method DeleteVal(ix: nat) returns (code: int)
      requires Valid()
      modifies repr
      ensures Valid()
      ensures code == Code(old(contents), Delete(ix))
      ensures contents == Apply(old(contents), Delete(ix))
      ensures code == (if ix < |old(contents)| then 0 else 1)
      ensures ix < |old(contents)| ==> contents == old(contents[..ix]) + old(contents[ix + 1..])
      ensures repr == old(repr)
      ensures code != 0 ==> unchanged(old(repr))
      ensures code == 0 ==> spine == RemoveAt(old(spine), ix)
    {
      if ix >= size { return 1; }
      if size == 1 {
        head, tail, size := null, null, 0;
        spine, contents := [], [];
        return 0;
      }
      if ix == 0 {
        UnlinkHead();
      } else if ix == size - 1 {
        UnlinkTail();
      } else {
        UnlinkInner(ix);
      }
      return 0;
    }

    method UnlinkHead()
      requires Valid() && 1 < size
      modifies repr
      ensures Valid() && spine == old(spine[1..]) && contents == old(contents[1..]) && repr == old(repr)
    {
      var current := head;
      assert current.next == spine[1];
      current.next.prev := null;
      head := current.next;
      size := size - 1;
      spine, contents := spine[1..], contents[1..];
    }

    method UnlinkTail()
      requires Valid() && 1 < size
      modifies repr
      ensures Valid() && spine == old(spine[..size - 1]) && contents == old(contents[..size - 1]) && repr == old(repr)
    {
      var current := tail;
      assert current.prev == spine[size - 2];
      current.prev.next := null;
      tail := current.prev;
      size := size - 1;
      spine, contents := spine[..size], contents[..size];
    }

    method UnlinkInner(ix: nat)
      requires Valid() && 0 < ix < size - 1
      modifies repr
      ensures Valid() && spine == RemoveAt(old(spine), ix) && contents == RemoveAt(old(contents), ix)
      ensures repr == old(repr)
    {
      var current := JumpToNode(ix);
      assert current.prev == spine[ix - 1] && current.next == spine[ix + 1];
      current.prev.next := current.next;
      current.next.prev := current.prev;
      size := size - 1;
      ghost var was, vals := spine, contents;
      spine, contents := RemoveAt(spine, ix), RemoveAt(contents, ix);
      BridgedIsValid(was, vals, ix);
    }

    /** The chain `was`, with its ix-th node bridged over, is the new list. */
    lemma BridgedIsValid(was: seq<Node<T>>, vals: seq<T>, ix: nat)
      requires 0 < ix < |was| - 1 && |vals| == |was| && Distinct(was)
      requires this in repr && forall n :: n in was ==> n in repr
      requires spine == RemoveAt(was, ix) && contents == RemoveAt(vals, ix)
      requires size == |was| - 1 && head == was[0] && tail == was[|was| - 1]
      requires head.prev == null && tail.next == null
      requires forall i :: 0 <= i < |was| ==> was[i].val == vals[i]
      requires forall i {:trigger was[i].next} :: 0 <= i < |was| - 1 ==>
        was[i].next == if i == ix - 1 then was[i + 2] else was[i + 1]
      requires forall i {:trigger was[i].prev} :: 0 < i < |was| ==>
        was[i].prev == if i == ix + 1 then was[i - 2] else was[i - 1]
      ensures Valid()
    {
    }

    /** Reading an empty list dereferences a null head in the source, hence the precondition. */
    method GetVal(ix: nat) returns (r: Option<T>)
      requires Valid() && size > 0
      ensures r == if ix < |contents| then Some(contents[ix]) else None
    {
      if ix >= size && size != 0 { return None; }
      var current := JumpToNode(ix);
      return Some(current.val);
    }

    method FindVal(val: T) returns (ix: int)
      requires Valid()
      ensures ix == FirstIndex(contents, val)
    {
      var current := head;
      var i := 0;
      while i < size
        invariant 0 <= i <= size
        invariant current == if i < size then spine[i] else null
        invariant val !in contents[..i]
      {
        if val == current.val {
          assert contents[..i + 1] == contents[..i] + [val];
          FirstIndexIs(contents, i);
          return i;
        }
        assert contents[..i + 1] == contents[..i] + [current.val];
        i, current := i + 1, current.next;
      }
      assert contents[..i] == contents;
      FirstIndexFinds(contents, val);
      return -1;
    }

    /** Every run of inserts and deletes keeps the links sound and refines the sequence run. */
    method Replay(calls: seq<ListCall<T>>)
      requires Valid()
      modifies repr
      ensures Valid() && contents == ApplyAll(old(contents), calls)
      ensures forall o :: o in repr ==> o in old(repr) || fresh(o)
      decreases |calls|
    {
      if calls != [] {
        var code;
        match calls[0] {
          case Insert(ix, v) => code := InsertVal(ix, v);
          case Delete(ix) => code := DeleteVal(ix);
        }
        Replay(calls[1..]);
      }
    }
  }
}
