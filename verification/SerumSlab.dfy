/**
 * The Serum order-book slab, src/synthfi/Serum/SerumTypes.hpp: a crit-bit tree kept in an array of nodes that
 * refer to each other by index.
 */
module SerumSlab {
  type U64 = x: nat | x < 0x1_0000_0000_0000_0000

  /** A 128-bit key: the limit price above, the sequence number below. */
  datatype NodeKey = NodeKey(limitPrice: U64, sequenceNumber: U64) {
    function Number(): nat {
      limitPrice * 0x1_0000_0000_0000_0000 + sequenceNumber
    }
  }

  datatype LeafNode = LeafNode(key: NodeKey, ownerSlot: nat, owner: nat, quantity: U64, clientOrderId: U64)

  datatype Node =
    | Uninitialized
    | InnerNode(prefixLength: nat, key: NodeKey, child0: nat, child1: nat)
    | Leaf(leaf: LeafNode)
    | FreeNode(next: nat)
    | LastFreeNode(next: nat)
  {
    function Child(bit: bool): nat
      requires InnerNode?
    {
      if bit then child1 else child0
    }
  }

  type Slab = seq<Node>

  // ---------------------------------------------------------------- bits of a key

  /** `k` without its `n` lowest bits. */
  function Drop(k: nat, n: nat): nat
    decreases n
  {
    if n == 0 then k else Drop(k / 2, n - 1)
  }

  /** The bit just below the first `p` of 128: the one a node of prefix length `p` branches on. */
  predicate CritBit(k: NodeKey, p: nat)
    requires p < 128
  {
    Drop(k.Number(), 127 - p) % 2 == 1
  }

  ghost predicate SharePrefix(a: NodeKey, b: NodeKey, p: nat)
    requires p < 128
  {
    Drop(a.Number(), 128 - p) == Drop(b.Number(), 128 - p)
  }

  lemma {:induction false} DropMore(k: nat, n: nat)
    ensures Drop(k, n + 1) == Drop(k, n) / 2
    decreases n
  {
    if n > 0 { DropMore(k / 2, n - 1); }
  }

  lemma {:induction false} DropMonotone(a: nat, b: nat, n: nat)
    requires a <= b
    ensures Drop(a, n) <= Drop(b, n)
    decreases n
  {
    if n > 0 { DropMonotone(a / 2, b / 2, n - 1); }
  }

  /** Of two keys with the same prefix, the critical bit is clear in one and set in the other just where they part. */
  lemma CritBitOrders(a: NodeKey, b: NodeKey, p: nat)
    requires p < 128 && SharePrefix(a, b, p)
    ensures !CritBit(a, p) && CritBit(b, p) <==>
            a.Number() < b.Number() && Drop(a.Number(), 127 - p) != Drop(b.Number(), 127 - p)
  {
    DropMore(a.Number(), 127 - p);
    DropMore(b.Number(), 127 - p);
    if b.Number() <= a.Number() {
      DropMonotone(b.Number(), a.Number(), 127 - p);
    } else {
      DropMonotone(a.Number(), b.Number(), 127 - p);
    }
  }

  // ---------------------------------------------------------------- the tree

  /** Every index is inside the slab and no path is longer than `height`: the recursion ends. */
  ghost predicate Finite(slab: Slab, index: nat, height: nat)
    decreases height
  {
    && index < |slab|
    && (slab[index].InnerNode? ==>
          height > 0 && Finite(slab, slab[index].child0, height - 1) && Finite(slab, slab[index].child1, height - 1))
  }

  /** Prefix lengths strictly grow downwards. */
  ghost predicate Ranked(slab: Slab, index: nat, depth: nat)
    decreases 128 - depth
  {
    && index < |slab|
    && (slab[index].InnerNode? ==>
          var p := slab[index].prefixLength;
          depth <= p < 128 && Ranked(slab, slab[index].child0, p + 1) && Ranked(slab, slab[index].child1, p + 1))
  }

  lemma {:induction false} Higher(slab: Slab, index: nat, height: nat, more: nat)
    requires Finite(slab, index, height) && height <= more
    ensures Finite(slab, index, more) && Leaves(slab, index, more) == Leaves(slab, index, height)
    decreases height
  {
    if slab[index].InnerNode? {
      Higher(slab, slab[index].child0, height - 1, more - 1);
      Higher(slab, slab[index].child1, height - 1, more - 1);
    }
  }

  /** With growing prefixes no path has more than 128 inner nodes, whatever the slab. */
  lemma {:induction false} RankedIsFinite(slab: Slab, index: nat, depth: nat)
    requires Ranked(slab, index, depth) && depth <= 128
    ensures Finite(slab, index, 128 - depth)
    decreases 128 - depth
  {
    if slab[index].InnerNode? {
      var p := slab[index].prefixLength;
      RankedIsFinite(slab, slab[index].child0, p + 1);
      RankedIsFinite(slab, slab[index].child1, p + 1);
      Higher(slab, slab[index].child0, 127 - p, 127 - depth);
      Higher(slab, slab[index].child1, 127 - p, 127 - depth);
    }
  }

  /** The leaves below a node, child 0 before child 1. */
  ghost function Leaves(slab: Slab, index: nat, height: nat): seq<LeafNode>
    requires Finite(slab, index, height)
    decreases height
  {
    match slab[index]
    case InnerNode(_, _, child0, child1) => Leaves(slab, child0, height - 1) + Leaves(slab, child1, height - 1)
    case Leaf(leaf) => [leaf]
    case _ => []
  }

  /**
   * Prefix lengths grow downwards, and every leaf below a node shares its prefix and lies under the child its
   * critical bit selects.
   */
  ghost predicate CritBitTree(slab: Slab, index: nat, height: nat, depth: nat)
    requires Finite(slab, index, height)
    decreases height
  {
    slab[index].InnerNode? ==>
      var node, p := slab[index], slab[index].prefixLength;
      && depth <= p < 128
      && CritBitTree(slab, node.child0, height - 1, p + 1)
      && CritBitTree(slab, node.child1, height - 1, p + 1)
      && (forall leaf :: leaf in Leaves(slab, node.child0, height - 1) ==>
            SharePrefix(leaf.key, node.key, p) && !CritBit(leaf.key, p))
      && (forall leaf :: leaf in Leaves(slab, node.child1, height - 1) ==>
            SharePrefix(leaf.key, node.key, p) && CritBit(leaf.key, p))
  }

  /** A crit-bit tree; by RankedIsFinite the bound on its height asks for nothing more. */
  ghost predicate WellFormed(slab: Slab, root: nat) {
    Finite(slab, root, 128) && CritBitTree(slab, root, 128, 0)
  }

  // ---------------------------------------------------------------- the traversal

  class LeafVector {
    var nodes: seq<LeafNode>

    constructor ()
      ensures nodes == []
    {
      nodes := [];
    }
  }

  /** get_leaf_nodes: recursion over both children, appending each leaf to the vector passed by reference. */
  method AppendLeafNodes(slab: Slab, index: nat, nodes: LeafVector, ghost height: nat)
    requires Finite(slab, index, height)
    modifies nodes
    ensures nodes.nodes == old(nodes.nodes) + Leaves(slab, index, height)
    decreases height
  {
    match slab[index]
    case InnerNode(_, _, child0, child1) =>
      AppendLeafNodes(slab, child0, nodes, height - 1);
      AppendLeafNodes(slab, child1, nodes, height - 1);
    case Leaf(leaf) =>
      nodes.nodes := nodes.nodes + [leaf];
    case _ =>
  }

  method GetLeafNodes(slab: Slab, rootNode: nat, ghost height: nat) returns (leaves: seq<LeafNode>)
    requires Finite(slab, rootNode, height)
    ensures leaves == Leaves(slab, rootNode, height)
  {
    var vector := new LeafVector();
    AppendLeafNodes(slab, rootNode, vector, height);
    leaves := vector.nodes;
  }

  // ---------------------------------------------------------------- order

  ghost predicate Ascending(leaves: seq<LeafNode>) {
    forall i, j :: 0 <= i < j < |leaves| ==> leaves[i].key.Number() < leaves[j].key.Number()
  }

  /** The traversal yields keys in strictly ascending 128-bit order. */
  lemma {:induction false} LeavesAscend(slab: Slab, index: nat, height: nat, depth: nat)
    requires Finite(slab, index, height) && CritBitTree(slab, index, height, depth)
    ensures Ascending(Leaves(slab, index, height))
    decreases height
  {
    if slab[index].InnerNode? {
      var node, p := slab[index], slab[index].prefixLength;
      LeavesAscend(slab, node.child0, height - 1, p + 1);
      LeavesAscend(slab, node.child1, height - 1, p + 1);
      var left, right := Leaves(slab, node.child0, height - 1), Leaves(slab, node.child1, height - 1);
      forall i, j | 0 <= i < |left| && 0 <= j < |right|
        ensures left[i].key.Number() < right[j].key.Number()
      {
        assert left[i] in left && right[j] in right;
        CritBitOrders(left[i].key, right[j].key, p);
      }
      AscendingConcat(left, right);
    }
  }

  lemma AscendingConcat(left: seq<LeafNode>, right: seq<LeafNode>)
    requires Ascending(left) && Ascending(right)
    requires forall i, j :: 0 <= i < |left| && 0 <= j < |right| ==> left[i].key.Number() < right[j].key.Number()
    ensures Ascending(left + right)
  {
    hide NodeKey.Number;
    var all := left + right;
    forall i, j | 0 <= i < j < |all|
      ensures all[i].key.Number() < all[j].key.Number()
    {
    }
  }

  // ---------------------------------------------------------------- coverage

  /** Following the child choices of `path` from `index` leads to the node `target`. */
  ghost predicate Reaches(slab: Slab, index: nat, path: seq<bool>, target: nat)
    decreases |path|
  {
    if path == [] then index == target
    else index < |slab| && slab[index].InnerNode? && Reaches(slab, slab[index].Child(path[0]), path[1..], target)
  }

  /** A path from `index` to a leaf node holding `leaf`. */
  ghost predicate LeadsTo(slab: Slab, index: nat, path: seq<bool>, target: nat, leaf: LeafNode) {
    Reaches(slab, index, path, target) && target < |slab| && slab[target] == Leaf(leaf)
  }

  lemma {:induction false} ReachableIsListed(slab: Slab, index: nat, height: nat, path: seq<bool>, target: nat,
      leaf: LeafNode)
    requires Finite(slab, index, height) && LeadsTo(slab, index, path, target, leaf)
    ensures leaf in Leaves(slab, index, height)
    decreases |path|
  {
    if path != [] {
      ReachableIsListed(slab, slab[index].Child(path[0]), height - 1, path[1..], target, leaf);
    }
  }

  lemma {:induction false} ListedIsReachable(slab: Slab, index: nat, height: nat, leaf: LeafNode)
      returns (path: seq<bool>, target: nat)
    requires Finite(slab, index, height) && leaf in Leaves(slab, index, height)
    ensures LeadsTo(slab, index, path, target, leaf)
    decreases height
  {
    if slab[index].InnerNode? {
      var node := slab[index];
      var bit := leaf !in Leaves(slab, node.child0, height - 1);
      var rest, t := ListedIsReachable(slab, node.Child(bit), height - 1, leaf);
      path, target := [bit] + rest, t;
      assert path[1..] == rest;
    } else {
      path, target := [], index;
    }
  }

  /** The traversal lists exactly the reachable leaves, on every slab on which it ends. */
  lemma LeavesAreReachable(slab: Slab, root: nat, height: nat, leaf: LeafNode)
    requires Finite(slab, root, height)
    ensures leaf in Leaves(slab, root, height) <==> exists path, target :: LeadsTo(slab, root, path, target, leaf)
  {
    if leaf in Leaves(slab, root, height) {
      var path, target := ListedIsReachable(slab, root, height, leaf);
    }
    if path, target :| LeadsTo(slab, root, path, target, leaf) {
      ReachableIsListed(slab, root, height, path, target, leaf);
    }
  }

  /** And each of them once: no two places of the list, and no two paths, have the same key. */
  lemma {:induction false} OnePathPerKey(slab: Slab, index: nat, height: nat, depth: nat,
      path: seq<bool>, target: nat, leaf: LeafNode, path': seq<bool>, target': nat, leaf': LeafNode)
    requires Finite(slab, index, height) && CritBitTree(slab, index, height, depth)
    requires LeadsTo(slab, index, path, target, leaf) && LeadsTo(slab, index, path', target', leaf')
    requires leaf.key == leaf'.key
    ensures path == path' && target == target' && leaf == leaf'
    decreases |path|
  {
    if slab[index].InnerNode? {
      var node, p := slab[index], slab[index].prefixLength;
      assert path != [] && path' != [];
      ReachableIsListed(slab, node.Child(path[0]), height - 1, path[1..], target, leaf);
      ReachableIsListed(slab, node.Child(path'[0]), height - 1, path'[1..], target', leaf');
      assert path[0] == CritBit(leaf.key, p) == path'[0];
      OnePathPerKey(slab, node.Child(path[0]), height - 1, p + 1, path[1..], target, leaf,
                    path'[1..], target', leaf');
      assert path == [path[0]] + path[1..] && path' == [path'[0]] + path'[1..];
    } else {
      assert path == [] && path' == [];
    }
  }

  // ---------------------------------------------------------------- search

  /** The descent the source keeps in a comment: at each inner node take the child the key's critical bit names. */
  ghost function WalkDown(slab: Slab, index: nat, height: nat, depth: nat, key: NodeKey): nat
    requires Finite(slab, index, height) && CritBitTree(slab, index, height, depth)
    decreases height
  {
    if slab[index].InnerNode? then
      var p := slab[index].prefixLength;
      if CritBit(key, p) then WalkDown(slab, slab[index].child1, height - 1, p + 1, key)
      else WalkDown(slab, slab[index].child0, height - 1, p + 1, key)
    else index
  }

  /** Searching and listing agree: the descent ends at a leaf of the key exactly when the list has such a leaf. */
  lemma {:induction false} SearchFindsListed(slab: Slab, index: nat, height: nat, depth: nat, key: NodeKey)
    requires Finite(slab, index, height) && CritBitTree(slab, index, height, depth)
    ensures var end := WalkDown(slab, index, height, depth, key);
            && end < |slab|
            && ((slab[end].Leaf? && slab[end].leaf.key == key) <==>
                exists leaf :: leaf in Leaves(slab, index, height) && leaf.key == key)
    decreases height
  {
    if slab[index].InnerNode? {
      var node, p := slab[index], slab[index].prefixLength;
      SearchFindsListed(slab, node.child0, height - 1, p + 1, key);
      SearchFindsListed(slab, node.child1, height - 1, p + 1, key);
    } else if slab[index].Leaf? {
      assert slab[index].leaf in Leaves(slab, index, height);
    }
  }
}
