/**
 * The list engine under queue.c: a circular doubly-linked list of node
 * addresses with a sentinel, and what its relinking primitives (the
 * `list_add`, `list_add_tail`, `list_del` and pair-swap steps) do to the ring.
 */
module Ring {

  /** A node address. */
  type Node = nat

  /** The sentinel's address: the queue handle. */
  const Head: Node := 0

  /** The node at ring position `i`, where every position off either end is the sentinel. */
  function At(nodes: seq<Node>, i: int): Node {
    if 0 <= i < |nodes| then nodes[i] else Head
  }

  /** No node appears twice. */
  ghost predicate Distinct(nodes: seq<Node>) {
    forall i, j :: 0 <= i < j < |nodes| ==> nodes[i] != nodes[j]
  }

  /** Consecutive nodes are linked to each other both ways. */
  ghost predicate Chained(next: map<Node, Node>, prev: map<Node, Node>, nodes: seq<Node>) {
    (forall i :: 0 <= i < |nodes| - 1 ==> nodes[i] in next && next[nodes[i]] == nodes[i + 1]) &&
    (forall i :: 0 < i < |nodes| ==> nodes[i] in prev && prev[nodes[i]] == nodes[i - 1])
  }

  /**
   * The links form one ring: the sentinel, then `nodes` in order, then back
   * to the sentinel; each `prev` link is the reverse of a `next` link, and
   * no node appears twice.
   */
  ghost predicate Linked(next: map<Node, Node>, prev: map<Node, Node>, nodes: seq<Node>) {
    Head in next && Head in prev &&
    (forall i :: 0 <= i < |nodes| ==> nodes[i] != Head && nodes[i] in next && nodes[i] in prev) &&
    Distinct(nodes) &&
    (nodes == [] ==> next[Head] == Head && prev[Head] == Head) &&
    (nodes != [] ==>
       next[Head] == nodes[0] && prev[nodes[0]] == Head &&
       prev[Head] == nodes[|nodes| - 1] && next[nodes[|nodes| - 1]] == Head) &&
    Chained(next, prev, nodes)
  }

  /** Following `next` from ring position `i` leads to position `i + 1`, and `prev` back to `i - 1`. */
  lemma Neighbours(next: map<Node, Node>, prev: map<Node, Node>, nodes: seq<Node>, i: nat)
    requires Linked(next, prev, nodes) && i < |nodes|
    ensures next[nodes[i]] == At(nodes, i + 1) && prev[nodes[i]] == At(nodes, i - 1)
  {
    if i + 1 < |nodes| {
      assert next[nodes[i]] == nodes[i + 1];
    }
    if i > 0 {
      assert prev[nodes[i]] == nodes[i - 1];
    }
  }

  /**
   * The ring invariant the list code relies on: from every node of the ring,
   * `next` then `prev`, or `prev` then `next`, leads back to it; and the ring
   * is empty exactly when the sentinel links to itself.
   */
  lemma RingInvariant(next: map<Node, Node>, prev: map<Node, Node>, nodes: seq<Node>)
    requires Linked(next, prev, nodes)
    ensures forall n :: n == Head || n in nodes ==>
              n in next && n in prev && next[n] in prev && prev[next[n]] == n &&
              prev[n] in next && next[prev[n]] == n
    ensures nodes == [] <==> next[Head] == Head
    ensures |nodes| <= 1 <==> next[Head] == prev[Head]
  {
    forall n | n == Head || n in nodes
      ensures n in next && n in prev && next[n] in prev && prev[next[n]] == n &&
              prev[n] in next && next[prev[n]] == n
    {
      if n != Head {
        var i :| 0 <= i < |nodes| && nodes[i] == n;
        Neighbours(next, prev, nodes, i);
        if i + 1 < |nodes| {
          Neighbours(next, prev, nodes, i + 1);
        }
        if i > 0 {
          Neighbours(next, prev, nodes, i - 1);
        }
      }
    }
  }

  /**
   * `list_add` (`p` the sentinel) or `list_add_tail` (`s` the sentinel),
   * with `p` and `s` the nodes around ring position `k`: after its four
   * link updates, `n` sits at position `k`.
   */
  lemma LinkedInsert(next: map<Node, Node>, prev: map<Node, Node>, nodes: seq<Node>, n: Node, k: nat)
    requires Linked(next, prev, nodes) && k <= |nodes| && n != Head && n !in nodes
    ensures Linked(next[n := At(nodes, k)][At(nodes, k - 1) := n],
                   prev[At(nodes, k) := n][n := At(nodes, k - 1)],
                   nodes[..k] + [n] + nodes[k..])
  {
    var nodes1 := nodes[..k] + [n] + nodes[k..];
    assert forall i :: 0 <= i < k ==> nodes1[i] == nodes[i];
    assert forall i :: k < i < |nodes1| ==> nodes1[i] == nodes[i - 1];
    InsertDistinct(nodes, n, k);
    InsertChained(next, prev, nodes, n, k);
  }

  /** A node not yet in the ring, put at position `k`, keeps the ring free of repeats. */
  lemma InsertDistinct(nodes: seq<Node>, n: Node, k: nat)
    requires Distinct(nodes) && k <= |nodes| && n !in nodes
    ensures Distinct(nodes[..k] + [n] + nodes[k..])
  {
    var nodes1 := nodes[..k] + [n] + nodes[k..];
    forall i, j | 0 <= i < j < |nodes1|
      ensures nodes1[i] != nodes1[j]
    {
      if i != k && j != k {
        assert nodes1[i] == nodes[if i < k then i else i - 1];
        assert nodes1[j] == nodes[if j < k then j else j - 1];
      }
    }
  }

  /** After `list_add` or `list_add_tail` at position `k`, every node is linked both ways to its ring neighbours. */
  lemma InsertChained(next: map<Node, Node>, prev: map<Node, Node>, nodes: seq<Node>, n: Node, k: nat)
    requires Linked(next, prev, nodes) && k <= |nodes| && n != Head && n !in nodes
    ensures Chained(next[n := At(nodes, k)][At(nodes, k - 1) := n],
                    prev[At(nodes, k) := n][n := At(nodes, k - 1)],
                    nodes[..k] + [n] + nodes[k..])
  {
    var p, s := At(nodes, k - 1), At(nodes, k);
    var next1, prev1 := next[n := s][p := n], prev[s := n][n := p];
    var nodes1 := nodes[..k] + [n] + nodes[k..];
    forall i, j | 0 <= i && j == i + 1 && j < |nodes1|
      ensures nodes1[i] in next1 && next1[nodes1[i]] == nodes1[j] && nodes1[j] in prev1 && prev1[nodes1[j]] == nodes1[i]
    {
      if j < k {
        assert nodes1[i] == nodes[i] && nodes1[j] == nodes[j];
        assert next[nodes[i]] == nodes[j];
      } else if i > k {
        assert nodes1[i] == nodes[i - 1] && nodes1[j] == nodes[j - 1];
        assert next[nodes[i - 1]] == nodes[j - 1];
      } else if i == k {
        assert nodes1[j] == s;
      } else {
        assert nodes1[i] == p;
      }
    }
  }

  /**
   * `list_del` of the node at ring position `k`: after its two link updates
   * the node is out of the ring and the others keep their order.
   */
  lemma LinkedRemove(next: map<Node, Node>, prev: map<Node, Node>, nodes: seq<Node>, k: nat)
    requires Linked(next, prev, nodes) && k < |nodes|
    ensures Linked(next[At(nodes, k - 1) := At(nodes, k + 1)],
                   prev[At(nodes, k + 1) := At(nodes, k - 1)],
                   nodes[..k] + nodes[k + 1..])
  {
    var nodes1 := nodes[..k] + nodes[k + 1..];
    assert forall i :: 0 <= i < k ==> nodes1[i] == nodes[i];
    assert forall i :: k <= i < |nodes1| ==> nodes1[i] == nodes[i + 1];
    RemoveDistinct(nodes, k);
    RemoveChained(next, prev, nodes, k);
  }

  /** Taking the node at position `k` out keeps the ring free of repeats. */
  lemma RemoveDistinct(nodes: seq<Node>, k: nat)
    requires Distinct(nodes) && k < |nodes|
    ensures Distinct(nodes[..k] + nodes[k + 1..])
  {
    var nodes1 := nodes[..k] + nodes[k + 1..];
    forall i, j | 0 <= i < j < |nodes1|
      ensures nodes1[i] != nodes1[j]
    {
      assert nodes1[i] == nodes[if i < k then i else i + 1];
      assert nodes1[j] == nodes[if j < k then j else j + 1];
    }
  }

  /** After `list_del` at position `k`, every node is linked both ways to its ring neighbours. */
  lemma RemoveChained(next: map<Node, Node>, prev: map<Node, Node>, nodes: seq<Node>, k: nat)
    requires Linked(next, prev, nodes) && k < |nodes|
    ensures Chained(next[At(nodes, k - 1) := At(nodes, k + 1)],
                    prev[At(nodes, k + 1) := At(nodes, k - 1)],
                    nodes[..k] + nodes[k + 1..])
  {
    var p, s := At(nodes, k - 1), At(nodes, k + 1);
    var next1, prev1 := next[p := s], prev[s := p];
    var nodes1 := nodes[..k] + nodes[k + 1..];
    forall i, j | 0 <= i && j == i + 1 && j < |nodes1|
      ensures nodes1[i] in next1 && next1[nodes1[i]] == nodes1[j] && nodes1[j] in prev1 && prev1[nodes1[j]] == nodes1[i]
    {
      if j < k {
        assert nodes1[i] == nodes[i] && nodes1[j] == nodes[j];
        assert next[nodes[i]] == nodes[j];
      } else if i == k - 1 {
        assert nodes1[i] == nodes[k - 1] && nodes1[j] == nodes[k + 1];
      } else {
        assert nodes1[i] == nodes[i + 1] && nodes1[j] == nodes[j + 1];
        assert next[nodes[i + 1]] == nodes[j + 1];
      }
    }
  }

  /**
   * One step of q_swap on the adjacent nodes at ring positions `k` and
   * `k + 1`: after its six link updates the two have changed places.
   */
  lemma LinkedSwap(next: map<Node, Node>, prev: map<Node, Node>, nodes: seq<Node>, k: nat)
    requires Linked(next, prev, nodes) && k + 1 < |nodes|
    ensures Linked(next[At(nodes, k - 1) := nodes[k + 1]][nodes[k] := At(nodes, k + 2)][nodes[k + 1] := nodes[k]],
                   prev[nodes[k + 1] := At(nodes, k - 1)][nodes[k] := nodes[k + 1]][At(nodes, k + 2) := nodes[k]],
                   nodes[k := nodes[k + 1]][k + 1 := nodes[k]])
  {
    SwapDistinct(nodes, k);
    SwapChained(next, prev, nodes, k);
  }

  /** Exchanging the nodes at positions `k` and `k + 1` keeps the ring free of repeats. */
  lemma SwapDistinct(nodes: seq<Node>, k: nat)
    requires Distinct(nodes) && k + 1 < |nodes|
    ensures Distinct(nodes[k := nodes[k + 1]][k + 1 := nodes[k]])
  {
    var nodes1 := nodes[k := nodes[k + 1]][k + 1 := nodes[k]];
    forall i, j | 0 <= i < j < |nodes1|
      ensures nodes1[i] != nodes1[j]
    {
      assert nodes1[i] == nodes[if i == k then k + 1 else if i == k + 1 then k else i];
      assert nodes1[j] == nodes[if j == k then k + 1 else if j == k + 1 then k else j];
    }
  }

  /** After the pair swap at `k`, every node is linked both ways to its ring neighbours. */
  lemma SwapChained(next: map<Node, Node>, prev: map<Node, Node>, nodes: seq<Node>, k: nat)
    requires Linked(next, prev, nodes) && k + 1 < |nodes|
    ensures Chained(next[At(nodes, k - 1) := nodes[k + 1]][nodes[k] := At(nodes, k + 2)][nodes[k + 1] := nodes[k]],
                    prev[nodes[k + 1] := At(nodes, k - 1)][nodes[k] := nodes[k + 1]][At(nodes, k + 2) := nodes[k]],
                    nodes[k := nodes[k + 1]][k + 1 := nodes[k]])
  {
    var a, b, p, c := nodes[k], nodes[k + 1], At(nodes, k - 1), At(nodes, k + 2);
    var next1 := next[p := b][a := c][b := a];
    var prev1 := prev[b := p][a := b][c := a];
    var nodes1 := nodes[k := b][k + 1 := a];
    forall i, j | 0 <= i && j == i + 1 && j < |nodes1|
      ensures nodes1[i] in next1 && next1[nodes1[i]] == nodes1[j] && nodes1[j] in prev1 && prev1[nodes1[j]] == nodes1[i]
    {
      if j < k || i > k + 1 {
        assert next[nodes[i]] == nodes[j];
      } else if j == k {
        assert nodes1[i] == p;
      } else if i == k + 1 {
        assert nodes1[j] == c;
      }
    }
  }
}
