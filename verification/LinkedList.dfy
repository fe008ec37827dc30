/** The doubly linked lists of allocated nodes behind the hash table's buckets, open or closed to a cycle. */
module LinkedListModule {

  class Node<T> {
    const value: T
    var left: Node?<T>
    var right: Node?<T>

    /** linked_list_create_node. */
    constructor (value: T)
      ensures this.value == value && left == null && right == null
    {
      this.value := value;
      left, right := null, null;
    }
  }

  /** The node at place i, where a cycle goes on from one end to the other. */
  ghost function At<T>(nodes: seq<Node<T>>, cyclic: bool, i: int): Node?<T>
    requires -1 <= i <= |nodes|
  {
    if 0 <= i < |nodes| then nodes[i]
    else if !cyclic || nodes == [] then null
    else if i < 0 then nodes[|nodes| - 1] else nodes[0]
  }

  ghost predicate Linked<T>(nodes: seq<Node<T>>, cyclic: bool)
    reads nodes`left, nodes`right
  {
    && (forall i, j :: 0 <= i < j < |nodes| ==> nodes[i] != nodes[j])
    && (forall i :: 0 <= i < |nodes| ==>
      nodes[i].left == At(nodes, cyclic, i - 1) && nodes[i].right == At(nodes, cyclic, i + 1))
  }

  ghost function Values<T>(nodes: seq<Node<T>>): (r: seq<T>)
    ensures |r| == |nodes|
  {
    seq(|nodes|, i requires 0 <= i < |nodes| => nodes[i].value)
  }

  lemma Neighbours<T>(nodes: seq<Node<T>>, cyclic: bool, k: nat)
    requires Linked(nodes, cyclic) && k < |nodes|
    ensures nodes[k].left == At(nodes, cyclic, k - 1) && nodes[k].right == At(nodes, cyclic, k + 1)
    ensures nodes[k] == nodes[0] ==> k == 0
    ensures nodes[0].right == At(nodes, cyclic, 1) && (nodes[0].right == nodes[0] <==> cyclic && |nodes| == 1)
  {
  }

  function Beyond(i: int, k: int): int {
    if i < k then i else i + 1
  }

  /** Without its k-th node a list links the neighbours of that node to each other. */
  lemma AtCut<T>(nodes: seq<Node<T>>, cyclic: bool, k: nat, i: nat)
    requires k < |nodes| && i < |nodes| - 1 && forall a, b :: 0 <= a < b < |nodes| ==> nodes[a] != nodes[b]
    ensures var r, m := nodes[..k] + nodes[k + 1..], Beyond(i, k);
      && r[i] == nodes[m]
      && At(r, cyclic, i + 1) ==
        (if nodes[m] == At(nodes, cyclic, k - 1) then At(nodes, cyclic, k + 1) else At(nodes, cyclic, m + 1))
      && At(r, cyclic, i - 1) ==
        (if nodes[m] == At(nodes, cyclic, k + 1) then At(nodes, cyclic, k - 1) else At(nodes, cyclic, m - 1))
  {
  }

  /** All nodes but the k-th are linked as before, but for its neighbours, which are linked to each other. */
  ghost predicate LinkedPast<T>(nodes: seq<Node<T>>, cyclic: bool, k: nat, left: Node?<T>, right: Node?<T>)
    reads nodes`left, nodes`right
  {
    forall m :: 0 <= m < |nodes| && m != k ==>
      && nodes[m].left == (if nodes[m] == right then left else At(nodes, cyclic, m - 1))
      && nodes[m].right == (if nodes[m] == left then right else At(nodes, cyclic, m + 1))
  }

  lemma CutLinked<T>(nodes: seq<Node<T>>, cyclic: bool, k: nat, left: Node?<T>, right: Node?<T>)
    requires k < |nodes| && LinkedPast(nodes, cyclic, k, left, right)
    requires forall a, b :: 0 <= a < b < |nodes| ==> nodes[a] != nodes[b]
    requires |nodes| > 1 ==> left == At(nodes, cyclic, k - 1) && right == At(nodes, cyclic, k + 1)
    ensures Linked(nodes[..k] + nodes[k + 1..], cyclic && |nodes| > 1)
  {
    hide At;
    var r := nodes[..k] + nodes[k + 1..];
    forall i | 0 <= i < |r|
      ensures r[i] == nodes[Beyond(i, k)]
      ensures r[i].left == At(r, cyclic, i - 1) && r[i].right == At(r, cyclic, i + 1)
    {
      AtCut(nodes, cyclic, k, i);
    }
  }

  lemma ValuesBeside<T>(n: Node<T>, nodes: seq<Node<T>>)
    ensures Values([n] + nodes) == [n.value] + Values(nodes)
  {
  }

  lemma ValuesCut<T>(nodes: seq<Node<T>>, k: nat)
    requires k < |nodes|
    ensures Values(nodes[..k] + nodes[k + 1..]) == Values(nodes)[..k] + Values(nodes)[k + 1..]
  {
  }

  class LinkedList<T> {
    var root: Node?<T>
    ghost var nodes: seq<Node<T>>
    ghost var cyclic: bool

    ghost predicate Valid()
      reads this, nodes`left, nodes`right
    {
      Linked(nodes, cyclic) && root == (if nodes == [] then null else nodes[0]) && (cyclic ==> nodes != [])
    }

    /** The empty open list. */
    constructor ()
      ensures Valid() && nodes == [] && !cyclic
    {
      root, nodes, cyclic := null, [], false;
    }

    /** linked_list_create_root_cycle. */
    constructor Cycle(value: T)
      ensures Valid() && cyclic && Values(nodes) == [value] && fresh(nodes)
    {
      var n := new Node(value);
      root, nodes, cyclic := n, [n], true;
      new;
      root.right := root;
      root.left := root;
    }

    /** linked_list_add_begin: an open list stays open, a cycle stays a cycle. */
    method AddBegin(value: T) returns (n: Node<T>)
      requires Valid()
      modifies this, nodes`left, nodes`right
      ensures Valid() && fresh(n) && nodes == [n] + old(nodes) && cyclic == old(cyclic)
      ensures Values(nodes) == [value] + old(Values(nodes))
    {
      hide Values;
      n := new Node(value);
      Hook(n, root, nodes, cyclic);
      ValuesBeside(n, nodes);
      root := n;
      nodes := [n] + nodes;
    }

    /** The linking in linked_list_add_begin. */
    static method Hook(n: Node<T>, root: Node?<T>, ghost nodes: seq<Node<T>>, ghost cyclic: bool)
      requires Linked(nodes, cyclic) && (cyclic ==> nodes != []) && root == (if nodes == [] then null else nodes[0])
      requires n !in nodes && n.left == null
      modifies n`left, n`right, nodes`left, nodes`right
      ensures Linked([n] + nodes, cyclic)
    {
      n.right := root;
      if root != null {
        n.left := root.left;
        if root.left != null {
          assert root.left == nodes[|nodes| - 1];
          root.left.right := n;
        }
        root.left := n;
      }
      ghost var r := [n] + nodes;
      forall i | 0 < i < |r|
        ensures r[i] == nodes[i - 1]
        ensures r[i].left == At(r, cyclic, i - 1) && r[i].right == At(r, cyclic, i + 1)
      {
      }
    }

    /** linked_list_erase of the node at place k: the values to its left and right stay in order. */
    method Erase(curr: Node<T>, ghost k: nat)
      requires Valid() && k < |nodes| && nodes[k] == curr
      modifies this, nodes`left, nodes`right
      ensures Valid() && nodes == old(nodes)[..k] + old(nodes)[k + 1..] && cyclic == (old(cyclic) && nodes != [])
      ensures Values(nodes) == old(Values(nodes))[..k] + old(Values(nodes))[k + 1..]
    {
      hide Values, Linked;
      ValuesCut(nodes, k);
      Neighbours(nodes, cyclic, k);
      var left, right := curr.left, curr.right;
      if root == curr {
        if root.right == root {
          root, left, right := null, null, null;
        } else {
          root := root.right;
        }
      }
      Unhook(left, right, nodes, k, cyclic);
      nodes := nodes[..k] + nodes[k + 1..];
      cyclic := cyclic && nodes != [];
    }

    /** _linked_list_erase_end, without the two frees. */
    static method Unhook(left: Node?<T>, right: Node?<T>, ghost nodes: seq<Node<T>>, ghost k: nat, ghost cyclic: bool)
      requires Linked(nodes, cyclic) && k < |nodes|
      requires if |nodes| == 1 then left == right == null else left == nodes[k].left && right == nodes[k].right
      modifies nodes`left, nodes`right
      ensures Linked(nodes[..k] + nodes[k + 1..], cyclic && |nodes| > 1)
    {
      if left != null {
        left.right := right;
      }
      if right != null {
        right.left := left;
      }
      assert LinkedPast(nodes, cyclic, k, left, right);
      CutLinked(nodes, cyclic, k, left, right);
    }

    /** linked_list_destroy. */
    method Destroy()
      requires Valid()
      modifies this, nodes`left, nodes`right
      ensures Valid() && nodes == [] && root == null && !cyclic
    {
      hide Values, Linked;
      while root != null
        invariant Valid() && forall i :: 0 <= i < |nodes| ==> nodes[i] in old(nodes)
        decreases |nodes|
      {
        Erase(root, 0);
      }
    }
  }
}
