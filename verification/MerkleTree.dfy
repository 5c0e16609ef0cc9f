/** The Merkle tree as the program builds it: linked nodes with parent pointers. */
module MerkleTrees {
  import opened Words
  import opened Records
  import opened MerkleSpec

  class HashTree {
    var parent: HashTree?
    var left: HashTree?
    var right: HashTree?
    var hash: Hash
    ghost var tree: Tree   // the subtree that hangs below this node

    constructor (h: Hash)
      ensures parent == null && left == null && right == null && hash == h && tree == Leaf(h)
    {
      parent, left, right, hash, tree := null, null, null, h, Leaf(h);
    }
  }

  ghost function SetOf(hs: seq<Hash>): set<Hash> {
    set h | h in hs
  }

  lemma SetOfSnoc(hs: seq<Hash>, i: nat)
    requires i < |hs|
    ensures SetOf(hs[..i + 1]) == SetOf(hs[..i]) + {hs[i]}
  {
    assert hs[..i + 1] == hs[..i] + [hs[i]];
  }

  /** A node's children, parent and ghost tree agree. */
  ghost predicate NodeOk(n: HashTree, nodes: set<HashTree>)
    reads nodes, n
  {
    && (n.left == null <==> n.right == null)
    && (n.left == null ==> n.tree == Leaf(n.hash))
    && (n.left != null ==>
          && n.left in nodes && n.right in nodes && n.left != n.right
          && n.left.parent == n && n.right.parent == n
          && n.tree == Node(n.hash, n.left.tree, n.right.tree))
    && (n.parent != null ==> n.parent in nodes && (n.parent.left == n || n.parent.right == n))
  }

  ghost predicate Linked(nodes: set<HashTree>)
    reads nodes
  {
    forall n {:trigger NodeOk(n, nodes)} :: n in nodes ==> NodeOk(n, nodes)
  }

  ghost predicate Bounded(nodes: set<HashTree>, bound: nat)
    reads nodes
  {
    forall n <- nodes :: Size(n.tree) <= bound
  }

  /** The queue holds exactly the nodes without a parent, each once. */
  ghost predicate Queued(nodes: set<HashTree>, q: seq<HashTree>, trees: seq<Tree>)
    reads nodes
  {
    && |trees| == |q|
    && (forall i :: 0 <= i < |q| ==> q[i] in nodes && q[i].parent == null && q[i].tree == trees[i])
    && (forall i, j :: 0 <= i < j < |q| ==> q[i] != q[j])
    && (forall n <- nodes :: n.parent == null ==> n in q)
  }

  /** What the queue becomes once its first two nodes hang below `top`. */
  lemma Requeue(nodes: set<HashTree>, q: seq<HashTree>, trees: seq<Tree>, top: HashTree)
    requires |trees| == |q| >= 2 && top in nodes && top.parent == null
    requires q[0].parent != null && q[1].parent != null
    requires forall i :: 0 <= i < |q| ==> q[i] in nodes && q[i].tree == trees[i] && q[i] != top
    requires forall i :: 2 <= i < |q| ==> q[i].parent == null
    requires forall i, j :: 0 <= i < j < |q| ==> q[i] != q[j]
    requires forall n <- nodes :: n.parent == null ==> n in q || n == top
    ensures Queued(nodes, q[2..] + [top], trees[2..] + [top.tree])
  {
    var q', trees' := q[2..] + [top], trees[2..] + [top.tree];
    forall n | n in nodes && n.parent == null
      ensures n in q'
    {
      if n != top {
        var i :| 0 <= i < |q| && q[i] == n;
        assert q'[i - 2] == n;
      } else {
        assert q'[|q| - 2] == top;
      }
    }
  }

  lemma NobodysChild(a: HashTree, nodes: set<HashTree>)
    requires Linked(nodes) && a.parent == null
    ensures forall n <- nodes :: n.left != a && n.right != a
  {
    forall n | n in nodes
      ensures n.left != a && n.right != a
    {
      assert NodeOk(n, nodes);
    }
  }

  class MerkleTree {
    var root: HashTree?
    var fringeNodes: map<Hash, HashTree>
    ghost var nodes: set<HashTree>
    ghost var bound: nat

    constructor ()
      ensures root == null && fringeNodes == map[] && nodes == {}
    {
      root, fringeNodes, nodes, bound := null, map[], {}, 0;
    }

    /** Every node's parent chain ends at the root, and every fringe entry is a
        leaf below it. */
    ghost predicate Valid()
      reads this, nodes
    {
      && root != null && root in nodes && Linked(nodes) && Bounded(nodes, bound)
      && (forall n <- nodes :: n.parent == null <==> n == root)
      && (forall h <- fringeNodes :: fringeNodes[h] in nodes && fringeNodes[h].tree == Leaf(h))
    }

    /** The state between two steps of the builder. */
    ghost predicate Forest(q: seq<HashTree>, trees: seq<Tree>)
      reads this, nodes
    {
      && Linked(nodes) && Bounded(nodes, bound) && Queued(nodes, q, trees)
      && (forall h <- fringeNodes :: fringeNodes[h] in nodes && fringeNodes[h].tree == Leaf(h))
    }

    /** One item: a new leaf, entered in the fringe and queued. */
    method PushItem(h: Hash, q: seq<HashTree>, ghost trees: seq<Tree>) returns (q': seq<HashTree>)
      requires Forest(q, trees) && bound >= 1
      modifies this`nodes, this`fringeNodes
      ensures Forest(q', trees + [Leaf(h)])
      ensures fresh(nodes - old(nodes)) && old(nodes) <= nodes
      ensures fringeNodes.Keys == old(fringeNodes).Keys + {h}
    {
      var node := new HashTree(h);
      q' := PushNode(node, q, trees);
      fringeNodes := fringeNodes[h := node];
    }

    method PushNode(node: HashTree, q: seq<HashTree>, ghost trees: seq<Tree>) returns (q': seq<HashTree>)
      requires Forest(q, trees) && bound >= 1
      requires node !in nodes && node.parent == null && node.left == null && node.right == null
      requires node.tree == Leaf(node.hash)
      modifies this`nodes
      ensures Forest(q', trees + [Leaf(node.hash)])
      ensures nodes == old(nodes) + {node}
    {
      q' := q + [node];
      nodes := nodes + {node};
      forall n | n in nodes
        ensures NodeOk(n, nodes)
      {
        assert n != node ==> NodeOk(n, old(nodes));
      }
    }

    method PairFront(c: Crypto, q: seq<HashTree>, ghost trees: seq<Tree>) returns (q': seq<HashTree>, ghost node: Tree)
      requires Forest(q, trees) && |q| >= 2
      modifies this`nodes, this`bound, nodes
      ensures node == Node(Concat(c, trees[0].hash, trees[1].hash), trees[0], trees[1])
      ensures Forest(q', trees[2..] + [node])
      ensures fresh(nodes - old(nodes)) && old(nodes) <= nodes
    {
      hide Size, Concat;
      assert NodeOk(q[0], nodes) && NodeOk(q[1], nodes);
      var top := Join(c, q[0], q[1]);
      node := top.tree;
      q' := q[2..] + [top];
      nodes := nodes + {top};
      bound := bound + Size(node);
      Requeue(nodes, q, trees, top);
    }

    /** Puts a new node above two that have no parent yet. */
    method Join(c: Crypto, a: HashTree, b: HashTree) returns (top: HashTree)
      requires Linked(nodes) && a in nodes && b in nodes && a != b && a.parent == null && b.parent == null
      modifies a`parent, b`parent
      ensures fresh(top) && top.parent == null && a.parent == top && b.parent == top
      ensures top.hash == Concat(c, a.hash, b.hash) && top.tree == Node(top.hash, a.tree, b.tree)
      ensures Linked(nodes + {top})
    {
      NobodysChild(a, nodes);
      NobodysChild(b, nodes);
      assert NodeOk(a, nodes) && NodeOk(b, nodes);
      top := new HashTree(NULL_HASH);
      top.left := a;
      top.right := b;
      a.parent := top;
      b.parent := top;
      top.hash := Concat(c, a.hash, b.hash);
      top.tree := Node(top.hash, a.tree, b.tree);
      forall n | n in nodes + {top}
        ensures NodeOk(n, nodes + {top})
      {
        if n == top {
        } else {
          assert old(NodeOk(n, nodes));
          assert n.left != null ==> n.left.parent == n && n.right.parent == n;
        }
      }
    }

    /** Sorts the items in place and pairs their hashes from a queue.  Taking the
        front of an empty queue is undefined, so there must be an item. */
    method SetItems(c: Crypto, items: seq<Transaction>) returns (sorted: seq<Transaction>)
      requires items != [] && nodes == {} && fringeNodes == map[]
      modifies this
      ensures sorted == SortByHash(c, items)
      ensures Valid() && fresh(nodes) && root.tree == RootTree(c, items)
      ensures root.tree.Node? && WellHashed(c, root.tree) && RightLeaves(c, items, Fringe(root.tree))
      ensures fringeNodes.Keys == SetOf(Hashes(c, items))
    {
      hide Build, WellHashed, PadOdd, Leaves, Hashes, SortByHash, RightLeaves, Fringe;
      sorted := SortByHash(c, items);
      var q := PushItems(c, sorted);
      PairAll(c, q, Leaves(PadOdd(Hashes(c, sorted))));
      SameHashes(c, items);
      RootTreeShape(c, items);
      RootLeaves(c, items);
    }

    /** Two from the front, their parent to the back, until one is left. */
    method PairAll(c: Crypto, queue: seq<HashTree>, ghost forest: seq<Tree>)
      requires Forest(queue, forest) && queue != []
      modifies this`nodes, this`bound, this`root, nodes
      ensures Valid() && fresh(nodes - old(nodes)) && root.tree == Build(c, forest)
    {
      var q := queue;
      ghost var trees := forest;
      while |q| > 1
        invariant q != [] && fresh(nodes - old(nodes)) && Forest(q, trees)
        invariant Build(c, trees) == Build(c, forest)
        decreases |q|
      {
        ghost var node;
        q, node := PairFront(c, q, trees);
        trees := trees[2..] + [node];
      }
      root := q[0];
    }

    /** Queues the leaves, and the last one again when there is an odd number. */
    method PushItems(c: Crypto, sorted: seq<Transaction>) returns (q: seq<HashTree>)
      requires nodes == {} && fringeNodes == map[] && sorted != []
      modifies this
      ensures fresh(nodes) && Forest(q, Leaves(PadOdd(Hashes(c, sorted))))
      ensures fringeNodes.Keys == SetOf(Hashes(c, sorted))
    {
      q := PushLeaves(c, sorted);
      if |q| % 2 == 1 {
        q := PushRepeat(q, Hashes(c, sorted));
      }
    }

    method PushLeaves(c: Crypto, items: seq<Transaction>) returns (q: seq<HashTree>)
      requires nodes == {} && fringeNodes == map[]
      modifies this
      ensures fresh(nodes) && Forest(q, Leaves(Hashes(c, items))) && bound == 1
      ensures fringeNodes.Keys == SetOf(Hashes(c, items))
    {
      hide TransactionHash, Leaves, SetOf, Hashes;
      NoLeaves();
      q, bound := [], 1;
      ghost var hs, trees := Hashes(c, items), [];
      for i := 0 to |items|
        invariant fresh(nodes) && bound == 1 && Forest(q, trees)
        invariant trees == Leaves(hs[..i])
        invariant fringeNodes.Keys == SetOf(hs[..i])
      {
        var h := HashItem(c, items, i);
        LeavesSnoc(hs, i);
        SetOfSnoc(hs, i);
        q := PushItem(h, q, trees);
        trees := trees + [Leaf(h)];
      }
      assert hs[..|items|] == hs;
    }

    static method HashItem(c: Crypto, items: seq<Transaction>, i: nat) returns (h: Hash)
      requires i < |items|
      ensures h == Hashes(c, items)[i]
    {
      HashesAt(c, items, i);
      h := TransactionHash(c, items[i]);
    }

    method PushRepeat(q: seq<HashTree>, ghost hs: seq<Hash>) returns (q': seq<HashTree>)
      requires hs != [] && bound >= 1 && Forest(q, Leaves(hs))
      modifies this`nodes
      ensures Forest(q', Leaves(hs + [hs[|hs| - 1]])) && fresh(nodes - old(nodes)) && old(nodes) <= nodes
    {
      LeavesAt(hs, |hs| - 1);
      LeavesAppend(hs, hs[|hs| - 1]);
      var last := q[|q| - 1];
      assert NodeOk(last, nodes);
      var repeat := new HashTree(last.hash);
      q' := PushNode(repeat, q, Leaves(hs));
    }

    /** The node found by walking up from the leaf of a transaction, if it has one: a
        copy of the root, whichever leaf it was. */
    method GetMerkleProof(c: Crypto, t: Transaction) returns (proof: HashTree?)
      requires Valid() && root.tree.Node? && WellHashed(c, root.tree)
      ensures proof == null <==> TransactionHash(c, t) !in fringeNodes
      ensures proof != null ==>
                && proof.left != null && proof.right != null
                && proof.left == root.left && proof.right == root.right
                && proof.hash == root.hash == Concat(c, proof.left.hash, proof.right.hash)
    {
      assert NodeOk(root, nodes) && NodeOk(root.left, nodes) && NodeOk(root.right, nodes);
      var hash := TransactionHash(c, t);
      if hash !in fringeNodes {
        return null;
      }
      assert NodeOk(fringeNodes[hash], nodes);
      proof := GetProof(fringeNodes[hash], null);
    }

    method GetProof(fringe: HashTree, previousNode: HashTree?) returns (result: HashTree)
      requires Valid() && fringe in nodes
      requires previousNode != null ==> previousNode in nodes && previousNode.parent == fringe
      requires previousNode == null ==> fringe.left == null
      ensures result.hash == root.hash
      ensures root.left != null ==> result.left == root.left && result.right == root.right
      decreases bound - Size(fringe.tree)
    {
      assert NodeOk(fringe, nodes) && NodeOk(root, nodes);
      if fringe.parent != null {
        assert NodeOk(fringe.parent, nodes);
      }
      if previousNode != null {
        assert NodeOk(previousNode, nodes);
      }
      result := new HashTree(fringe.hash);
      if previousNode != null {
        if fringe.left != null && fringe.left != previousNode {
          result.left := fringe.left;
          result.right := previousNode;
        } else if fringe.right != null && fringe.right != previousNode {
          result.right := fringe.right;
          result.left := previousNode;
        }
      }
      hide NodeOk;
      if fringe.parent != null {
        result := GetProof(fringe.parent, fringe);
      }
    }
  }

  lemma SameHashes(c: Crypto, items: seq<Transaction>)
    ensures SetOf(Hashes(c, items)) == SetOf(Hashes(c, SortByHash(c, items)))
  {
    SortDescends(c, items);
    assert forall h :: h in Hashes(c, items) <==> h in multiset(Hashes(c, items));
  }

  lemma {:induction false} LeavesAt(hs: seq<Hash>, i: nat)
    requires i < |hs|
    ensures Leaves(hs)[i] == Leaf(hs[i])
  {
    if i == 0 {
    } else {
      LeavesAt(hs[1..], i - 1);
    }
  }

  lemma NoLeaves()
    ensures Leaves([]) == [] && SetOf([]) == {}
  {
  }

  lemma LeavesSnoc(hs: seq<Hash>, i: nat)
    requires i < |hs|
    ensures Leaves(hs[..i + 1]) == Leaves(hs[..i]) + [Leaf(hs[i])]
  {
    assert hs[..i + 1] == hs[..i] + [hs[i]];
    LeavesAppend(hs[..i], hs[i]);
  }

  lemma {:induction false} LeavesAppend(hs: seq<Hash>, h: Hash)
    ensures Leaves(hs + [h]) == Leaves(hs) + [Leaf(h)]
  {
    if hs == [] {
    } else {
      assert (hs + [h])[1..] == hs[1..] + [h];
      LeavesAppend(hs[1..], h);
    }
  }
}
