/** Doubly linked lists: the `DoubleLinkNode` type of api.go, its
    constructors, the builder and the traversals in both directions.

    As for singly linked lists, chains are ghost sequences of nodes:
    `IsNextChain` follows `Next`, `IsPrevChain` follows `Prev`, and
    `IsList` is what the builder produces: a `Next` chain whose head has
    a nil `Prev` and in which `n.Next.Prev == n` for every node `n` with
    a successor. */
module DoublyLinked {

  /** A node of a doubly linked list. */
  class DoubleLinkNode<T> {
    var Next: DoubleLinkNode?<T>
    var Prev: DoubleLinkNode?<T>
    var Val: T

    /** `NewDoubleLinkNode(prev, next, val)`: a node with exactly these
        fields; nothing is checked about the neighbours. */
    constructor (prev: DoubleLinkNode?<T>, next: DoubleLinkNode?<T>, val: T)
      ensures Next == next && Prev == prev && Val == val
    {
      Next := next;
      Prev := prev;
      Val := val;
    }

    /** Follows `Prev` until it is nil and returns that node. */
    method GetHead(ghost back: seq<DoubleLinkNode<T>>) returns (head: DoubleLinkNode<T>)
      requires IsPrevChain(back) && back[0] == this
      ensures head == back[|back| - 1] && head.Prev == null
    {
      var current := this;
      ghost var i := 0;
      while current.Prev != null
        invariant 0 <= i < |back| && current == back[i]
        invariant current.Prev == if i < |back| - 1 then back[i + 1] else null
        decreases |back| - i
      {
        current := current.Prev;
        i := i + 1;
      }
      head := current;
    }

    /** Takes `index` steps along `Next`, stopping at nil. A non-positive
        index never enters the loop and gives this node back. `path`
        follows `Next` for at least `index` steps or up to a nil `Next`,
        so it may run around a cycle. */
    method GetNextAt(index: int, ghost path: seq<DoubleLinkNode<T>>) returns (r: DoubleLinkNode?<T>)
      requires IsNextPath(path) && path[0] == this
      requires index < |path| || path[|path| - 1].Next == null
      ensures r == if index <= 0 then this
                   else if index < |path| then path[index]
                   else null
    {
      var current: DoubleLinkNode?<T> := this;
      var i := 0;
      while current != null && i < index
        invariant 0 <= i <= |path|
        invariant i <= index || i == 0
        invariant current == if i < |path| then path[i] else null
        decreases index - i
      {
        current := current.Next;
        i := i + 1;
      }
      r := current;
    }

    /** Follows `Next` until it is nil and returns that node. */
    method GetLast(ghost chain: seq<DoubleLinkNode<T>>) returns (last: DoubleLinkNode<T>)
      requires IsNextChain(chain) && chain[0] == this
      ensures last == chain[|chain| - 1] && last.Next == null
    {
      var current := this;
      ghost var i := 0;
      while current.Next != null
        invariant 0 <= i < |chain| && current == chain[i]
        invariant current.Next == if i < |chain| - 1 then chain[i + 1] else null
        decreases |chain| - i
      {
        current := current.Next;
        i := i + 1;
      }
      last := current;
    }

    /** Takes `index` steps along `Prev`, stopping at nil. A non-positive
        index never enters the loop and gives this node back. `back`
        follows `Prev` for at least `index` steps or up to a nil `Prev`,
        so it may run around a cycle. */
    method GetPrevAt(index: int, ghost back: seq<DoubleLinkNode<T>>) returns (r: DoubleLinkNode?<T>)
      requires IsPrevPath(back) && back[0] == this
      requires index < |back| || back[|back| - 1].Prev == null
      ensures r == if index <= 0 then this
                   else if index < |back| then back[index]
                   else null
    {
      var current: DoubleLinkNode?<T> := this;
      var i := 0;
      while current != null && i < index
        invariant 0 <= i <= |back|
        invariant i <= index || i == 0
        invariant current == if i < |back| then back[i] else null
        decreases index - i
      {
        current := current.Prev;
        i := i + 1;
      }
      r := current;
    }
  }

  /** `chain` is a finite list along `Next`, ending in a nil `Next`. */
  ghost predicate IsNextChain<T>(chain: seq<DoubleLinkNode<T>>)
    reads chain
  {
    && |chain| > 0
    && (forall i :: 0 <= i < |chain| - 1 ==> chain[i].Next == chain[i + 1])
    && chain[|chain| - 1].Next == null
  }

  /** `path` follows `Next` from its first node; it need not end at a nil
      `Next`, and a node may occur in it more than once. */
  ghost predicate IsNextPath<T>(path: seq<DoubleLinkNode<T>>)
    reads path
  {
    && |path| > 0
    && (forall i :: 0 <= i < |path| - 1 ==> path[i].Next == path[i + 1])
  }

  /** `back` follows `Prev` from its first node, possibly around a cycle. */
  ghost predicate IsPrevPath<T>(back: seq<DoubleLinkNode<T>>)
    reads back
  {
    && |back| > 0
    && (forall i :: 0 <= i < |back| - 1 ==> back[i].Prev == back[i + 1])
  }

  /** `back` is a finite list along `Prev`, ending in a nil `Prev`. */
  ghost predicate IsPrevChain<T>(back: seq<DoubleLinkNode<T>>)
    reads back
  {
    && |back| > 0
    && (forall i :: 0 <= i < |back| - 1 ==> back[i].Prev == back[i + 1])
    && back[|back| - 1].Prev == null
  }

  /** Every node with a successor is that successor's `Prev`. */
  ghost predicate IsConsistent<T>(chain: seq<DoubleLinkNode<T>>)
    reads chain
  {
    forall i :: 0 <= i < |chain| - 1 ==> chain[i + 1].Prev == chain[i]
  }

  /** A well-formed doubly linked list, as the builder returns it: a
      `Next` chain, consistent back links, and no predecessor of the head. */
  ghost predicate IsList<T>(chain: seq<DoubleLinkNode<T>>)
    reads chain
  {
    IsNextChain(chain) && IsConsistent(chain) && chain[0].Prev == null
  }

  /** The values stored along a chain, in order. */
  ghost function Values<T>(chain: seq<DoubleLinkNode<T>>): (vals: seq<T>)
    reads chain
    ensures |vals| == |chain|
    ensures forall i :: 0 <= i < |chain| ==> vals[i] == chain[i].Val
  {
    if chain == [] then [] else [chain[0].Val] + Values(chain[1..])
  }

  /** The sequence in the opposite order. */
  function Reversed<X>(s: seq<X>): (r: seq<X>)
    ensures |r| == |s|
    ensures forall i :: 0 <= i < |s| ==> r[i] == s[|s| - 1 - i]
  {
    if s == [] then [] else Reversed(s[1..]) + [s[0]]
  }

  /** The successor of the node at position `i` of a `Next` chain. */
  lemma NextChainNext<T>(chain: seq<DoubleLinkNode<T>>, i: int)
    requires IsNextChain(chain) && 0 <= i < |chain|
    ensures chain[i].Next == if i < |chain| - 1 then chain[i + 1] else null
  {
  }

  /** No node occurs twice in a `Next` chain. */
  lemma {:induction false} NextChainDistinct<T>(chain: seq<DoubleLinkNode<T>>, i: int, j: int)
    requires IsNextChain(chain) && 0 <= i < j < |chain|
    ensures chain[i] != chain[j]
    decreases |chain| - j
  {
    NextChainNext(chain, i);
    NextChainNext(chain, j);
    if j < |chain| - 1 {
      NextChainDistinct(chain, i + 1, j + 1);
    }
  }

  /** The `Next` chain that starts at a node is determined by that node. */
  lemma {:induction false} NextChainUnique<T>(a: seq<DoubleLinkNode<T>>, b: seq<DoubleLinkNode<T>>)
    requires IsNextChain(a) && IsNextChain(b) && a[0] == b[0]
    ensures a == b
    decreases |a|
  {
    NextChainNext(a, 0);
    NextChainNext(b, 0);
    if |a| > 1 {
      assert IsNextChain(a[1..]) && IsNextChain(b[1..]);
      NextChainUnique(a[1..], b[1..]);
      assert a == [a[0]] + a[1..];
      assert b == [b[0]] + b[1..];
    }
  }

  /** Walking `Prev` from any node of a list reaches the head, passing the
      earlier nodes in reverse order; walking `Next` from it reaches the
      last node. So the head and the last node are found from any node. */
  lemma ListFromNode<T>(chain: seq<DoubleLinkNode<T>>, k: int)
    requires IsList(chain) && 0 <= k < |chain|
    ensures IsPrevChain(Reversed(chain[..k + 1]))
    ensures Reversed(chain[..k + 1])[0] == chain[k]
    ensures Reversed(chain[..k + 1])[k] == chain[0]
    ensures IsNextChain(chain[k..]) && chain[k..][0] == chain[k]
  {
    var back := Reversed(chain[..k + 1]);
    forall i | 0 <= i < |back| - 1
      ensures back[i].Prev == back[i + 1]
    {
      assert back[i] == chain[k - i] && back[i + 1] == chain[k - i - 1];
    }
  }

  /** From the last node of a list, `Prev` walks back over the whole list:
      position `i` of that walk holds `Values(chain)[|chain| - 1 - i]`. */
  lemma ListBackward<T>(chain: seq<DoubleLinkNode<T>>)
    requires IsList(chain)
    ensures IsPrevChain(Reversed(chain))
    ensures Reversed(chain)[0] == chain[|chain| - 1]
    ensures Values(Reversed(chain)) == Reversed(Values(chain))
  {
    ListFromNode(chain, |chain| - 1);
    assert chain[..|chain|] == chain;
  }

  /** `NewEmptyDoubleLinkNode`: a node with nil links and the default
      value of `T`. */
  method NewEmptyDoubleLinkNode<T(0)>() returns (n: DoubleLinkNode<T>)
    ensures fresh(n) && n.Next == null && n.Prev == null
  {
    var val: T := *;
    n := new DoubleLinkNode(null, null, val);
  }

  /** `CreateDoublyLinkedListFromSlice`: appends one fresh node per value
      behind a dummy node, linking each new node back to the previous
      tail, then detaches the first real node from the dummy. */
  method CreateDoublyLinkedListFromSlice<T(0)>(values: seq<T>)
    returns (head: DoubleLinkNode?<T>, ghost chain: seq<DoubleLinkNode<T>>)
    ensures head == null <==> values == []
    ensures head != null ==> IsList(chain) && chain[0] == head
    ensures Values(chain) == values
    ensures forall k :: 0 <= k < |chain| ==> fresh(chain[k])
  {
    var dummy := NewEmptyDoubleLinkNode<T>();
    var tail := dummy;
    chain := [];
    for i := 0 to |values|
      invariant |chain| == i
      invariant tail == if i == 0 then dummy else chain[i - 1]
      invariant tail.Next == null
      invariant dummy.Next == if i == 0 then null else chain[0]
      invariant i > 0 ==> chain[0].Prev == dummy
      invariant forall k :: 0 <= k < i - 1 ==> chain[k].Next == chain[k + 1]
      invariant forall k :: 0 <= k < i - 1 ==> chain[k + 1].Prev == chain[k]
      invariant forall k :: 0 <= k < i ==> chain[k].Val == values[k]
      invariant forall k :: 0 <= k < i ==> fresh(chain[k]) && chain[k] != dummy
      invariant forall j, k :: 0 <= j < k < i ==> chain[j] != chain[k]
    {
      var node := new DoubleLinkNode(tail, null, values[i]);
      tail.Next := node;
      tail := node;
      chain := chain + [node];
    }
    if dummy.Next != null {
      dummy.Next.Prev := null;
    }
    head := dummy.Next;
  }
}
