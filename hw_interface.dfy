/**
 * HwInterface: the user-facing handle that pairs a client (the transport
 * side) with the root of a tree of address-table nodes.  Building an
 * interface "claims" the tree: every node's back-pointer to its interface
 * is set to the new interface, recursively through the children.
 */
module HwInterface {

  /** The client an interface dispatches through; its behaviour is not part of this model. */
  class ClientInterface {
    constructor() {}
  }

  /**
   * An address-table node: the back-pointer to its interface, which
   * claiming updates, and its children in order, which it does not.
   */
  class Node {
    var hw: Hw?
    const children: seq<Node>
    /** The nodes of the subtree rooted here, this node included. */
    ghost const repr: set<Node>
    ghost const height: nat

    /**
     * The subtree is well founded: every child lies below this node, has a
     * smaller height and is itself valid, and the subtree is exactly this
     * node and its children's subtrees.
     */
    ghost predicate Valid()
      decreases height
    {
      && this in repr
      && (forall c :: c in children ==>
            && c in repr && c.repr <= repr && this !in c.repr && c.height < height
            && c.Valid())
      && repr == {this} + (set c, m | c in children && m in c.repr :: m)
    }
  }

  class Hw {
    const client: ClientInterface
    const node: Node

    /** The main constructor: keeps the client and the tree and claims the whole tree. */
    constructor(client: ClientInterface, node: Node)
      requires node.Valid()
      modifies node.repr`hw
      ensures this.client == client && this.node == node
      ensures forall m :: m in node.repr ==> m.hw == this
    {
      this.client := client;
      this.node := node;
      new;
      ClaimNode(node);
    }

    /**
     * The copy constructor: shares the other interface's client and claims
     * `clone`, the copy the other interface's root makes of itself (Node's
     * cloning is not part of this model; it yields a tree of new nodes).
     * The other interface's own tree is left claimed by it.
     */
    constructor Copy(other: Hw, clone: Node)
      requires clone.Valid() && other.node.Valid()
      requires clone.repr !! other.node.repr
      modifies clone.repr`hw
      ensures client == other.client && node == clone
      ensures forall m :: m in clone.repr ==> m.hw == this
      ensures forall m :: m in other.node.repr ==> m.hw == old(m.hw)
    {
      client := other.client;
      node := clone;
      new;
      ClaimNode(clone);
    }

    /**
     * claimNode: points `n` and every node below it at this interface.
     * Only the back-pointers change; the children of every node, and so
     * the shape of the tree and the order of the children, stay as they
     * were.
     */
    method ClaimNode(n: Node)
      requires n.Valid()
      modifies n.repr`hw
      ensures forall m :: m in n.repr ==> m.hw == this
      decreases n.height
    {
      n.hw := this;
      var i := 0;
      while i < |n.children|
        invariant i <= |n.children| && n.hw == this
        invariant forall c :: c in n.children[..i] ==> forall m :: m in c.repr ==> m.hw == this
      {
        ChildFacts(n, i);
        ClaimNode(n.children[i]);
        assert n.children[..i + 1] == n.children[..i] + [n.children[i]];
        i := i + 1;
      }
      assert n.children[..i] == n.children;
      Cover(n);
    }
  }

  /** A child of a valid node is a valid subtree strictly below it. */
  lemma ChildFacts(n: Node, i: nat)
    requires n.Valid() && i < |n.children|
    ensures var c := n.children[i];
            c.Valid() && c.repr <= n.repr && n !in c.repr && c.height < n.height
  {
    assert n.children[i] in n.children;
  }

  /** Every node of a valid subtree is its root or lies in one of the children's subtrees. */
  lemma Cover(n: Node)
    requires n.Valid()
    ensures forall m :: m in n.repr ==> m == n || exists c :: c in n.children && m in c.repr
  {
  }
}
