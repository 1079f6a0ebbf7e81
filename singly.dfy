/** Singly linked lists: the `SingleLinkNode` type of api.go, its
    constructors, the builder and the forward traversals.

    A node carries no length and no footprint. The list that starts at a
    node is described from outside by a ghost sequence `chain` of nodes:
    `IsChain(chain)` says each node's `Next` is the following one and the
    last node's `Next` is nil. Requiring such a sequence is how the model
    states that the chain is finite (acyclic); the lemmas below show that
    the nodes of a chain are pairwise distinct and that the chain starting
    at a node is unique. */
module SinglyLinked {

  /** A node of a singly linked list. */
  class SingleLinkNode<T> {
    var Next: SingleLinkNode?<T>
    var Val: T

    /** `NewSingleLinkNode(next, val)`: a node with exactly these fields. */
    constructor (next: SingleLinkNode?<T>, val: T)
      ensures Next == next && Val == val
    {
      Next := next;
      Val := val;
    }

    /** Follows `Next` until it is nil and returns that node. */
    method GetLast(ghost chain: seq<SingleLinkNode<T>>) returns (last: SingleLinkNode<T>)
      requires IsChain(chain) && chain[0] == this
      ensures last == chain[|chain| - 1] && last.Next == null
    {
      var current := this;
      ghost var i := 0;
      while current.Next != null
        invariant 0 <= i < |chain| && current == chain[i]
        invariant current.Next == if i < |chain| - 1 then chain[i + 1] else null
        decreases |chain| - i
      {
        current := current.Next;
        i := i + 1;
      }
      last := current;
    }

    /** Takes `index` steps along `Next`, stopping at nil. A non-positive
        index never enters the loop and gives this node back. The walk
        needs only the nodes it passes: `path` follows `Next` from this
        node for at least `index` steps or up to a nil `Next`, so it may
        run around a cycle. */
    method GetNextAt(index: int, ghost path: seq<SingleLinkNode<T>>) returns (r: SingleLinkNode?<T>)
      requires IsPath(path) && path[0] == this
      requires index < |path| || path[|path| - 1].Next == null
      ensures r == if index <= 0 then this
                   else if index < |path| then path[index]
                   else null
    {
      var current: SingleLinkNode?<T> := this;
      var i := 0;
      while current != null && i < index
        invariant 0 <= i <= |path|
        invariant i <= index || i == 0
        invariant current == if i < |path| then path[i] else null
        decreases index - i
      {
        current := current.Next;
        i := i + 1;
      }
      r := current;
    }
  }

  /** `chain` is a finite list along `Next`, ending in a nil `Next`. */
  ghost predicate IsChain<T>(chain: seq<SingleLinkNode<T>>)
    reads chain
  {
    && |chain| > 0
    && (forall i :: 0 <= i < |chain| - 1 ==> chain[i].Next == chain[i + 1])
    && chain[|chain| - 1].Next == null
  }

  /** `path` follows `Next` from its first node; unlike a chain it need
      not end at a nil `Next`, and a node may occur in it more than once. */
  ghost predicate IsPath<T>(path: seq<SingleLinkNode<T>>)
    reads path
  {
    && |path| > 0
    && (forall i :: 0 <= i < |path| - 1 ==> path[i].Next == path[i + 1])
  }

  /** The values stored along a chain, in order. */
  ghost function Values<T>(chain: seq<SingleLinkNode<T>>): (vals: seq<T>)
    reads chain
    ensures |vals| == |chain|
    ensures forall i :: 0 <= i < |chain| ==> vals[i] == chain[i].Val
  {
    if chain == [] then [] else [chain[0].Val] + Values(chain[1..])
  }

  /** The successor of the node at position `i` of a chain. */
  lemma ChainNext<T>(chain: seq<SingleLinkNode<T>>, i: int)
    requires IsChain(chain) && 0 <= i < |chain|
    ensures chain[i].Next == if i < |chain| - 1 then chain[i + 1] else null
  {
  }

  /** No node occurs twice in a chain: a nil-terminated chain has no cycle. */
  lemma {:induction false} ChainDistinct<T>(chain: seq<SingleLinkNode<T>>, i: int, j: int)
    requires IsChain(chain) && 0 <= i < j < |chain|
    ensures chain[i] != chain[j]
    decreases |chain| - j
  {
    assert chain[i].Next == chain[i + 1];
    if j < |chain| - 1 {
      ChainDistinct(chain, i + 1, j + 1);
      assert chain[j].Next == chain[j + 1];
    }
  }

  /** A suffix of a chain is the chain of its first node. */
  lemma ChainSuffix<T>(chain: seq<SingleLinkNode<T>>, k: int)
    requires IsChain(chain) && 0 <= k < |chain|
    ensures IsChain(chain[k..])
  {
  }

  /** The chain that starts at a node is determined by that node, so the
      ghost `chain` arguments of the traversals choose nothing. */
  lemma {:induction false} ChainUnique<T>(a: seq<SingleLinkNode<T>>, b: seq<SingleLinkNode<T>>)
    requires IsChain(a) && IsChain(b) && a[0] == b[0]
    ensures a == b
    decreases |a|
  {
    if |a| > 1 {
      assert a[0].Next == a[1];
      assert b[0].Next == b[1];
      ChainSuffix(a, 1);
      ChainSuffix(b, 1);
      ChainUnique(a[1..], b[1..]);
      assert a == [a[0]] + a[1..];
      assert b == [b[0]] + b[1..];
    } else {
      ChainNext(b, 0);
    }
  }

  /** `NewEmptySingleLinkNode`: a node with a nil `Next` and the default
      value of `T`. */
  method NewEmptySingleLinkNode<T(0)>() returns (n: SingleLinkNode<T>)
    ensures fresh(n) && n.Next == null
  {
    var val: T := *;
    n := new SingleLinkNode(null, val);
  }

  /** `CreateSinglyLinkedListFromSlice`: appends one fresh node per value
      behind a dummy node and returns the node after the dummy. */
  method CreateSinglyLinkedListFromSlice<T(0)>(values: seq<T>)
    returns (head: SingleLinkNode?<T>, ghost chain: seq<SingleLinkNode<T>>)
    ensures head == null <==> values == []
    ensures head != null ==> IsChain(chain) && chain[0] == head
    ensures Values(chain) == values
    ensures forall k :: 0 <= k < |chain| ==> fresh(chain[k])
  {
    var dummy := NewEmptySingleLinkNode<T>();
    var tail := dummy;
    chain := [];
    for i := 0 to |values|
      invariant |chain| == i
      invariant tail == if i == 0 then dummy else chain[i - 1]
      invariant tail.Next == null
      invariant dummy.Next == if i == 0 then null else chain[0]
      invariant forall k :: 0 <= k < i - 1 ==> chain[k].Next == chain[k + 1]
      invariant forall k :: 0 <= k < i ==> chain[k].Val == values[k]
      invariant forall k :: 0 <= k < i ==> fresh(chain[k]) && chain[k] != dummy
      invariant forall j, k :: 0 <= j < k < i ==> chain[j] != chain[k]
    {
      var node := new SingleLinkNode(null, values[i]);
      tail.Next := node;
      tail := node;
      chain := chain + [node];
    }
    head := dummy.Next;
  }
}
