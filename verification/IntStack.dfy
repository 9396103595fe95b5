/** The Lab 1 stack: nodes linked from the top down, over a heap whose cells are counted. */
module IntStack {
  import opened Sequences

  class IntCell {
    const value: int

    constructor (value: int)
      ensures this.value == value
    {
      this.value := value;
    }
  }

  class StackNode {
    var prev: StackNode?
    var data: IntCell

    constructor (data: IntCell)
      ensures this.data == data
    {
      this.data := data;
      prev := null;
    }
  }

  /** What has been taken from the process heap. Int cells are never given back. */
  class ProcessHeap {
    ghost var nodes: set<StackNode>
    ghost var nodesAllocated: nat
    ghost var nodesFreed: nat
    ghost var intsAllocated: nat

    ghost predicate Valid()
      reads this
    {
      nodesAllocated == nodesFreed + |nodes|
    }

    constructor ()
      ensures Valid() && nodes == {} && nodesAllocated == 0 && intsAllocated == 0
    {
      nodes, nodesAllocated, nodesFreed, intsAllocated := {}, 0, 0, 0;
    }

    method AllocNode(data: IntCell) returns (node: StackNode)
      requires Valid()
      modifies this
      ensures Valid() && fresh(node) && node !in old(nodes) && node.data == data
      ensures nodes == old(nodes) + {node} && nodesAllocated == old(nodesAllocated) + 1
      ensures nodesFreed == old(nodesFreed) && intsAllocated == old(intsAllocated)
    {
      node := new StackNode(data);
      nodes, nodesAllocated := nodes + {node}, nodesAllocated + 1;
    }

    /** A cell can be freed only while it is live, so never twice. */
    method FreeNode(node: StackNode)
      requires Valid() && node in nodes
      modifies this
      ensures Valid() && nodes == old(nodes) - {node} && nodesFreed == old(nodesFreed) + 1
      ensures nodesAllocated == old(nodesAllocated) && intsAllocated == old(intsAllocated)
    {
      nodes, nodesFreed := nodes - {node}, nodesFreed + 1;
    }

    method AllocInt(value: int) returns (cell: IntCell)
      requires Valid()
      modifies this
      ensures Valid() && cell.value == value && intsAllocated == old(intsAllocated) + 1
      ensures nodes == old(nodes) && nodesAllocated == old(nodesAllocated) && nodesFreed == old(nodesFreed)
    {
      cell := new IntCell(value);
      intsAllocated := intsAllocated + 1;
    }
  }

  class Stack {
    var bottom: StackNode?
    var top: StackNode?
    var size: nat

    // The nodes from the bottom up, and the ints in their cells.
    ghost var chain: seq<StackNode>
    ghost var vals: seq<int>

    /** The `prev` chain from the top is `size` nodes long and ends at `bottom`. An empty stack
        says nothing about `bottom`, which a pop leaves behind. */
    ghost predicate Valid()
      reads this, chain
    {
      && size == |chain| == |vals|
      && (size == 0 <==> top == null)
      && (size > 0 ==> top == chain[size - 1] && bottom == chain[0] && bottom.prev == null)
      && (forall i {:trigger chain[i].prev} :: 0 < i < size ==> chain[i].prev == chain[i - 1])
      && (forall i {:trigger chain[i].data} :: 0 <= i < size ==> chain[i].data.value == vals[i])
      && (forall i, j :: 0 <= i < j < size ==> chain[i] != chain[j])
    }

    /** The stack holds every live node of the heap, and nothing else. */
    ghost predicate Owns(heap: ProcessHeap)
      reads this, heap
    {
      heap.Valid() && (forall n :: n in heap.nodes ==> n in chain) && (forall n :: n in chain ==> n in heap.nodes)
    }

    /** The node `k` links below the top. */
    ghost function Below(k: nat): (n: StackNode?)
      requires Valid() && k <= size
      reads this, chain
      ensures n == if k < size then chain[size - 1 - k] else null
    {
      if k == 0 then top else Below(k - 1).prev
    }

    /** Cells allocated are cells freed plus the size. */
    lemma CellConservation(heap: ProcessHeap)
      requires Valid() && Owns(heap)
      ensures heap.nodesAllocated == heap.nodesFreed + size
      ensures Below(size) == null && (size > 0 ==> Below(size - 1) == bottom)
    {
      ChainSize(chain, heap.nodes);
    }

    static lemma {:induction false} ChainSize(c: seq<StackNode>, s: set<StackNode>)
      requires (forall n :: n in s ==> n in c) && (forall n :: n in c ==> n in s)
      requires forall i, j :: 0 <= i < j < |c| ==> c[i] != c[j]
      ensures |s| == |c|
    {
      if c != [] {
        var last := c[|c| - 1];
        var rest := c[..|c| - 1];
        assert c == rest + [last];
        ChainSize(rest, s - {last});
      }
    }

    constructor ()
      ensures Valid() && vals == [] && chain == []
    {
      bottom, top, size := null, null, 0;
      chain, vals := [], [];
    }

    /** Overwrites the record with an empty one; nodes still linked would be lost. */
    method Reset()
      modifies this
      ensures Valid() && vals == [] && chain == []
    {
      bottom, top, size := null, null, 0;
      chain, vals := [], [];
    }

    method Push(heap: ProcessHeap, data: IntCell?) returns (code: int)
      requires Valid() && Owns(heap)
      modifies this, heap
      ensures Valid() && Owns(heap) && heap.intsAllocated == old(heap.intsAllocated)
      ensures code == (if data == null then -1 else 0)
      ensures vals == if data == null then old(vals) else old(vals) + [data.value]
      ensures data == null ==> unchanged(this, heap)
      ensures heap.nodesAllocated == old(heap.nodesAllocated) + (if data == null then 0 else 1)
      ensures heap.nodesFreed == old(heap.nodesFreed)
    {
      if data == null { return -1; }
      var node := heap.AllocNode(data);
      Link(node);
      return 0;
    }

    method Link(node: StackNode)
      requires Valid() && node !in chain
      modifies this, node
      ensures Valid() && chain == old(chain) + [node] && vals == old(vals) + [old(node.data.value)]
    {
      if size == 0 {
        node.prev := null;
        bottom := node;
        top := node;
        size := 1;
      } else {
        node.prev := top;
        top := node;
        size := size + 1;
      }
      chain, vals := chain + [node], vals + [node.data.value];
    }

    method Peek() returns (data: IntCell?)
      requires Valid()
      ensures vals == [] ==> data == null
      ensures vals != [] ==> data != null && data.value == vals[|vals| - 1]
    {
      if top != null {
        assert top.data == chain[size - 1].data;
        return top.data;
      }
      return null;
    }

    method Pop(heap: ProcessHeap) returns (picked: IntCell?)
      requires Valid() && Owns(heap)
      modifies this, heap
      ensures Valid() && Owns(heap) && heap.intsAllocated == old(heap.intsAllocated)
      ensures old(vals) == [] ==> picked == null && unchanged(this, heap)
      ensures heap.nodesFreed == old(heap.nodesFreed) + (if old(vals) == [] then 0 else 1)
      ensures heap.nodesAllocated == old(heap.nodesAllocated)
      ensures old(vals) != [] ==>
                picked != null && picked.value == old(vals)[|old(vals)| - 1] && vals == old(vals)[..|old(vals)| - 1]
    {
      if top == null { return null; }
      picked := Peek();
      var popped := top;
      TopFreed(chain, heap.nodes, chain[..size - 1], heap.nodes - {popped});
      heap.FreeNode(popped);
      Unlink();
    }

    static lemma TopFreed(c: seq<StackNode>, s: set<StackNode>, rest: seq<StackNode>, left: set<StackNode>)
      requires c != [] && (forall n :: n in s ==> n in c) && (forall n :: n in c ==> n in s)
      requires forall i, j :: 0 <= i < j < |c| ==> c[i] != c[j]
      requires rest == c[..|c| - 1] && left == s - {c[|c| - 1]}
      ensures (forall n :: n in left ==> n in rest) && (forall n :: n in rest ==> n in left)
    {
    }

    method Unlink()
      requires Valid() && size > 0
      modifies this
      ensures Valid() && chain == old(chain)[..old(size) - 1] && vals == old(vals)[..old(size) - 1]
    {
      assert size > 1 ==> chain[size - 1].prev == chain[size - 2];
      top := top.prev;
      size := size - 1;
      chain, vals := chain[..size], vals[..size];
    }

    /** Pops until nothing is left; the picked cells are dropped. */
    method Clear(heap: ProcessHeap)
      requires Valid() && Owns(heap)
      modifies this, heap
      ensures Valid() && Owns(heap) && vals == [] && heap.nodes == {}
      ensures heap.intsAllocated == old(heap.intsAllocated)
    {
      while size > 0
        invariant Valid() && Owns(heap) && heap.intsAllocated == old(heap.intsAllocated)
        decreases size
      {
        var _ := Pop(heap);
      }
    }

    method PushInt(heap: ProcessHeap, val: int) returns (code: int)
      requires Valid() && Owns(heap)
      modifies this, heap
      ensures Valid() && Owns(heap) && code == 0 && vals == old(vals) + [val]
      ensures heap.intsAllocated == old(heap.intsAllocated) + 1
    {
      var data := heap.AllocInt(val);
      code := Push(heap, data);
    }

    /** The top int, or -1, which an int on the stack may also be. */
    method PeekInt() returns (r: int)
      requires Valid()
      ensures r == if vals == [] then -1 else vals[|vals| - 1]
    {
      var picked := Peek();
      if picked == null { return -1; }
      return picked.value;
    }

    method PopInt(heap: ProcessHeap) returns (r: int)
      requires Valid() && Owns(heap)
      modifies this, heap
      ensures Valid() && Owns(heap) && heap.intsAllocated == old(heap.intsAllocated)
      ensures r == if old(vals) == [] then -1 else old(vals)[|old(vals)| - 1]
      ensures vals == if old(vals) == [] then [] else old(vals)[..|old(vals)| - 1]
    {
      var picked := Pop(heap);
      if picked == null { return -1; }
      return picked.value;
    }

    /** Walks the chain from the top. */
    method Display() returns (shown: seq<int>)
      requires Valid()
      ensures shown == Reversed(vals)
    {
      shown := [];
      var current := top;
      ghost var k := 0;
      while current != null
        invariant k <= size && current == Below(k)
        invariant |shown| == k && forall i :: 0 <= i < k ==> shown[i] == vals[size - 1 - i]
        decreases size - k
      {
        shown := shown + [current.data.value];
        current, k := current.prev, k + 1;
      }
    }
  }
}
