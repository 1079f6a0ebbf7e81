/** The adapters of impl.go, which let one formatting routine walk both
    node kinds through `hasNext`, `next` and `val`.

    Go expresses this with an interface and two implementations,
    `singleImpl` and `doubleImpl`, each wrapping one node pointer. Here the
    wrapped pointer is a tagged value `Link`, and one adapter class
    `CommonNode` holds it; each method's two cases are the two
    implementations. */
module Impl {
  import opened SinglyLinked
  import opened DoublyLinked

  /** A possibly nil pointer to a node of either kind. */
  datatype Link<T> = Single(s: SingleLinkNode?<T>) | Double(d: DoubleLinkNode?<T>)
  {
    predicate IsNil() {
      match this
      case Single(s) => s == null
      case Double(d) => d == null
    }

    /** The node object pointed to, for frames. */
    function Target(): object? {
      match this
      case Single(s) => s
      case Double(d) => d
    }

    /** The pointer in the node's `Next` field, with the same tag. */
    function Successor(): Link<T>
      requires !IsNil()
      reads Target()
    {
      match this
      case Single(s) => Single(s.Next)
      case Double(d) => Double(d.Next)
    }

    /** The node's `Val` field. */
    function Value(): T
      requires !IsNil()
      reads Target()
    {
      match this
      case Single(s) => s.Val
      case Double(d) => d.Val
    }
  }

  /** The node objects a sequence of links points to. */
  ghost function Targets<T>(links: seq<Link<T>>): set<object?> {
    set i | 0 <= i < |links| :: links[i].Target()
  }

  /** `links` is a finite `Next` chain of non-nil pointers whose last
      node's `Next` is nil. */
  ghost predicate IsLinkChain<T>(links: seq<Link<T>>)
    reads Targets(links)
  {
    && |links| > 0
    && (forall i :: 0 <= i < |links| ==> !links[i].IsNil())
    && (forall i :: 0 <= i < |links| - 1 ==> links[i].Successor() == links[i + 1])
    && links[|links| - 1].Successor().IsNil()
  }

  /** The values stored along a chain of links, in order. */
  ghost function LinkValues<T>(links: seq<Link<T>>): (vals: seq<T>)
    requires forall i :: 0 <= i < |links| ==> !links[i].IsNil()
    reads Targets(links)
    ensures |vals| == |links|
    ensures forall i :: 0 <= i < |links| ==> vals[i] == links[i].Value()
  {
    if links == [] then []
    else
      assert Targets(links[1..]) <= Targets(links) by {
        forall o | o in Targets(links[1..]) ensures o in Targets(links) {
          var j :| 0 <= j < |links[1..]| && o == links[1..][j].Target();
          assert o == links[j + 1].Target();
        }
      }
      [links[0].Value()] + LinkValues(links[1..])
  }

  /** The successor of each link along a chain, in order. */
  ghost function Successors<T>(links: seq<Link<T>>): (succs: seq<Link<T>>)
    requires forall i :: 0 <= i < |links| ==> !links[i].IsNil()
    reads Targets(links)
    ensures |succs| == |links|
    ensures forall i :: 0 <= i < |links| ==> succs[i] == links[i].Successor()
  {
    seq(|links|, i requires 0 <= i < |links| reads Targets(links) => links[i].Successor())
  }

  /** The links of a singly linked chain. */
  ghost function SingleLinks<T>(chain: seq<SingleLinkNode<T>>): (links: seq<Link<T>>)
    ensures |links| == |chain|
    ensures forall i :: 0 <= i < |chain| ==> links[i] == Single(chain[i])
  {
    seq(|chain|, i requires 0 <= i < |chain| => Single(chain[i]))
  }

  /** The links of a doubly linked `Next` chain. */
  ghost function DoubleLinks<T>(chain: seq<DoubleLinkNode<T>>): (links: seq<Link<T>>)
    ensures |links| == |chain|
    ensures forall i :: 0 <= i < |chain| ==> links[i] == Double(chain[i])
  {
    seq(|chain|, i requires 0 <= i < |chain| => Double(chain[i]))
  }

  /** A singly linked chain seen through the adapter is a chain of links
      with the same values. */
  lemma SingleLinksChain<T>(chain: seq<SingleLinkNode<T>>)
    requires SinglyLinked.IsChain(chain)
    ensures IsLinkChain(SingleLinks(chain))
    ensures LinkValues(SingleLinks(chain)) == SinglyLinked.Values(chain)
  {
    var links := SingleLinks(chain);
    forall i | 0 <= i < |links| - 1
      ensures links[i].Successor() == links[i + 1]
    {
      ChainNext(chain, i);
    }
    ChainNext(chain, |chain| - 1);
  }

  /** A doubly linked `Next` chain seen through the adapter is a chain of
      links with the same values. */
  lemma DoubleLinksChain<T>(chain: seq<DoubleLinkNode<T>>)
    requires IsNextChain(chain)
    ensures IsLinkChain(DoubleLinks(chain))
    ensures LinkValues(DoubleLinks(chain)) == DoublyLinked.Values(chain)
  {
    var links := DoubleLinks(chain);
    forall i | 0 <= i < |links| - 1
      ensures links[i].Successor() == links[i + 1]
    {
      NextChainNext(chain, i);
    }
    NextChainNext(chain, |chain| - 1);
  }

  /** Stepping an adapter along a chain of links: `hasNext` holds exactly
      before the last position, and `next` moves to the following one. */
  lemma LinkChainStep<T>(links: seq<Link<T>>, i: int)
    requires IsLinkChain(links) && 0 <= i < |links|
    ensures !links[i].Successor().IsNil() <==> i < |links| - 1
    ensures i < |links| - 1 ==> links[i].Successor() == links[i + 1]
  {
  }

  /** An adapter at position `i` of a chain of links: `hasNext` holds
      exactly before the last position, `val` is the value at `i`, and
      `next` would move it to position `i + 1`. */
  lemma AdapterAt<T>(c: CommonNode<T>, links: seq<Link<T>>, i: int)
    requires IsLinkChain(links) && 0 <= i < |links| && c.node == links[i]
    ensures c.HasNext() <==> i < |links| - 1
    ensures c.Val() == LinkValues(links)[i]
    ensures i < |links| - 1 ==> c.node.Successor() == links[i + 1]
  {
    LinkChainStep(links, i);
  }

  /** The adapter is none of the nodes it walks over, so moving it leaves
      the chain as it was. */
  lemma AdapterOutside<T>(c: CommonNode<T>, links: seq<Link<T>>)
    ensures forall k :: 0 <= k < |links| ==> links[k].Target() != c
  {
  }

  /** The adapter: `doubleImpl` or `singleImpl`, by the tag of `node`. */
  class CommonNode<T> {
    var node: Link<T>

    constructor (node: Link<T>)
      ensures this.node == node
    {
      this.node := node;
    }

    /** `hasNext`: whether the wrapped node's `Next` is non-nil. */
    predicate HasNext()
      requires !node.IsNil()
      reads this, node.Target()
      ensures HasNext() <==> match node
                             case Single(s) => s.Next != null
                             case Double(d) => d.Next != null
    {
      !node.Successor().IsNil()
    }

    /** `next`: moves the adapter itself to the wrapped node's `Next` and
        returns the same adapter. */
    method Next() returns (c: CommonNode<T>)
      requires !node.IsNil()
      modifies this
      ensures node == old(node.Successor()) && c == this
    {
      match node {
        case Single(s) => node := Single(s.Next);
        case Double(d) => node := Double(d.Next);
      }
      c := this;
    }

    /** `val`: the wrapped node's value. */
    function Val(): (v: T)
      requires !node.IsNil()
      reads this, node.Target()
      ensures v == match node
                   case Single(s) => s.Val
                   case Double(d) => d.Val
    {
      node.Value()
    }
  }
}
