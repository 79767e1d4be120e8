/**
 * The string queue of queue.c: a circular, doubly-linked list whose sentinel
 * node is the queue handle.
 *
 * Memory is an arena of node addresses. A `Queue` object is the memory that
 * one queue's nodes live in: `next` and `prev` are the two links of each
 * node, `value` the string each element owns, and the sentinel sits at
 * address `Head`. The ghost sequence `nodes` lists the element nodes in ring
 * order, and `Valid()` ties the links to it. A C `NULL` queue handle is a
 * `null` reference.
 */
module Queues {
  import opened CStrings
  import opened QueueSpec
  import opened Ring

  datatype Option<T> = None | Some(value: T)

  /** The strings of the given nodes, in order. */
  function Values(value: map<Node, string>, nodes: seq<Node>): (r: seq<string>)
    requires forall i :: 0 <= i < |nodes| ==> nodes[i] in value
    ensures |r| == |nodes|
  {
    if nodes == [] then [] else [value[nodes[0]]] + Values(value, nodes[1..])
  }

  /** The string at position `i` is the one its node owns. */
  lemma {:induction false} ValuesAt(value: map<Node, string>, nodes: seq<Node>, i: nat)
    requires forall j :: 0 <= j < |nodes| ==> nodes[j] in value
    requires i < |nodes|
    ensures Values(value, nodes)[i] == value[nodes[i]]
  {
    if i > 0 {
      ValuesAt(value, nodes[1..], i - 1);
    }
  }

  /** Every string of the list is the one its node owns. */
  lemma ValuesPointwise(value: map<Node, string>, nodes: seq<Node>)
    requires forall j :: 0 <= j < |nodes| ==> nodes[j] in value
    ensures forall i :: 0 <= i < |nodes| ==> Values(value, nodes)[i] == value[nodes[i]]
  {
    forall i | 0 <= i < |nodes|
      ensures Values(value, nodes)[i] == value[nodes[i]]
    {
      ValuesAt(value, nodes, i);
    }
  }

  /** The list's strings depend only on what its own nodes own. */
  lemma {:induction false} ValuesFrame(value: map<Node, string>, value': map<Node, string>, nodes: seq<Node>)
    requires forall j :: 0 <= j < |nodes| ==> nodes[j] in value && nodes[j] in value' && value'[nodes[j]] == value[nodes[j]]
    ensures Values(value', nodes) == Values(value, nodes)
  {
    if nodes != [] {
      ValuesFrame(value, value', nodes[1..]);
    }
  }

  /** `v` cut to at most `m` characters. */
  function Truncated(v: string, m: nat): (r: string)
    ensures |r| <= m && |r| <= |v| && r == v[..|r|]
    ensures |v| <= m ==> r == v
  {
    if |v| <= m then v else v[..m]
  }

  /** Every node of the ring owns a stored C string. */
  ghost predicate Stored(value: map<Node, string>, nodes: seq<Node>) {
    forall i :: 0 <= i < |nodes| ==> nodes[i] in value && NoNul(value[nodes[i]])
  }

  /** Every address in the set has been handed out by the allocator. */
  ghost predicate Below(addresses: set<Node>, top: nat) {
    forall n :: n in addresses ==> n < top
  }

  /**
   * The queue's memory is consistent: the links form one ring through
   * `nodes`, each of those nodes owns a string, and every address in use is
   * below the allocator's mark `top`.
   */
  ghost predicate Wellformed(next: map<Node, Node>, prev: map<Node, Node>, value: map<Node, string>,
                             top: nat, nodes: seq<Node>) {
    Linked(next, prev, nodes) && Stored(value, nodes) &&
    Below(next.Keys, top) && Below(prev.Keys, top) && Below(value.Keys, top)
  }

  /** `list_add` or `list_add_tail` of a node at position `k` keeps the memory consistent. */
  lemma InsertWellformed(next: map<Node, Node>, prev: map<Node, Node>, value: map<Node, string>,
                         top: nat, nodes: seq<Node>, n: Node, k: nat)
    requires Wellformed(next, prev, value, top, nodes) && k <= |nodes|
    requires n != Head && n !in nodes && n in value && NoNul(value[n]) && n < top
    ensures Wellformed(next[n := At(nodes, k)][At(nodes, k - 1) := n],
                       prev[At(nodes, k) := n][n := At(nodes, k - 1)],
                       value, top, nodes[..k] + [n] + nodes[k..])
  {
    LinkedInsert(next, prev, nodes, n, k);
    var nodes1 := nodes[..k] + [n] + nodes[k..];
    assert forall i :: 0 <= i < k ==> nodes1[i] == nodes[i];
    assert forall i :: k < i < |nodes1| ==> nodes1[i] == nodes[i - 1];
  }

  /** Inserting a node at position `k` puts its string at position `k`. */
  lemma ValuesInsert(value: map<Node, string>, nodes: seq<Node>, n: Node, k: nat)
    requires forall j :: 0 <= j < |nodes| ==> nodes[j] in value
    requires n in value && k <= |nodes|
    ensures Values(value, nodes[..k] + [n] + nodes[k..]) == Values(value, nodes)[..k] + [value[n]] + Values(value, nodes)[k..]
  {
    var nodes1 := nodes[..k] + [n] + nodes[k..];
    var c, c1 := Values(value, nodes), Values(value, nodes1);
    var want := c[..k] + [value[n]] + c[k..];
    forall i | 0 <= i < |c1|
      ensures c1[i] == want[i]
    {
      ValuesAt(value, nodes1, i);
      if i < k {
        ValuesAt(value, nodes, i);
      } else if k < i {
        ValuesAt(value, nodes, i - 1);
      }
    }
    assert c1 == want;
  }

  /** `list_del` of the node at position `k` keeps the memory consistent and drops its string. */
  lemma RemoveWellformed(next: map<Node, Node>, prev: map<Node, Node>, value: map<Node, string>,
                         top: nat, nodes: seq<Node>, k: nat)
    requires Wellformed(next, prev, value, top, nodes) && k < |nodes|
    ensures Wellformed(next[At(nodes, k - 1) := At(nodes, k + 1)],
                       prev[At(nodes, k + 1) := At(nodes, k - 1)],
                       value, top, DropAt(nodes, k))
    ensures Values(value, DropAt(nodes, k)) == DropAt(Values(value, nodes), k)
  {
    LinkedRemove(next, prev, nodes, k);
    var c, c1 := Values(value, nodes), Values(value, DropAt(nodes, k));
    forall i | 0 <= i < |c1|
      ensures c1[i] == DropAt(c, k)[i]
    {
      ValuesAt(value, DropAt(nodes, k), i);
      ValuesAt(value, nodes, if i < k then i else i + 1);
    }
  }

  /** One q_swap step at positions `k` and `k + 1` keeps the memory consistent and exchanges their strings. */
  lemma SwapWellformed(next: map<Node, Node>, prev: map<Node, Node>, value: map<Node, string>,
                       top: nat, nodes: seq<Node>, k: nat)
    requires Wellformed(next, prev, value, top, nodes) && k + 1 < |nodes|
    ensures Wellformed(next[At(nodes, k - 1) := nodes[k + 1]][nodes[k] := At(nodes, k + 2)][nodes[k + 1] := nodes[k]],
                       prev[nodes[k + 1] := At(nodes, k - 1)][nodes[k] := nodes[k + 1]][At(nodes, k + 2) := nodes[k]],
                       value, top, nodes[k := nodes[k + 1]][k + 1 := nodes[k]])
    ensures Values(value, nodes[k := nodes[k + 1]][k + 1 := nodes[k]])
            == Values(value, nodes)[k := value[nodes[k + 1]]][k + 1 := value[nodes[k]]]
  {
    LinkedSwap(next, prev, nodes, k);
    var nodes1 := nodes[k := nodes[k + 1]][k + 1 := nodes[k]];
    assert forall i :: 0 <= i < |nodes1| ==> nodes1[i] == nodes[if i == k then k + 1 else if i == k + 1 then k else i];
    RingInvariant(next, prev, nodes);
    assert next[At(nodes, k - 1) := nodes[k + 1]][nodes[k] := At(nodes, k + 2)][nodes[k + 1] := nodes[k]].Keys == next.Keys;
    assert prev[nodes[k + 1] := At(nodes, k - 1)][nodes[k] := nodes[k + 1]][At(nodes, k + 2) := nodes[k]].Keys == prev.Keys;
    ValuesSwap(value, nodes, k);
  }

  /** Exchanging the nodes at `k` and `k + 1` exchanges their strings in the contents. */
  lemma ValuesSwap(value: map<Node, string>, nodes: seq<Node>, k: nat)
    requires forall i :: 0 <= i < |nodes| ==> nodes[i] in value
    requires k + 1 < |nodes|
    ensures Values(value, nodes[k := nodes[k + 1]][k + 1 := nodes[k]])
            == Values(value, nodes)[k := value[nodes[k + 1]]][k + 1 := value[nodes[k]]]
  {
    ValuesPointwise(value, nodes);
    ValuesPointwise(value, nodes[k := nodes[k + 1]][k + 1 := nodes[k]]);
  }

  /** Swapping the pairs of nodes swaps the pairs of their strings. */
  lemma ValuesSwapPairs(value: map<Node, string>, nodes: seq<Node>)
    requires Stored(value, nodes)
    ensures Stored(value, SwapPairs(nodes))
    ensures Values(value, SwapPairs(nodes)) == SwapPairs(Values(value, nodes))
  {
    SwapPairsExchanges(nodes);
    SwapPairsExchanges(Values(value, nodes));
    ValuesPointwise(value, nodes);
    ValuesPointwise(value, SwapPairs(nodes));
  }

  /** Releasing an unlinked element keeps the memory consistent and the ring's strings as they were. */
  lemma ReleaseWellformed(next: map<Node, Node>, prev: map<Node, Node>, value: map<Node, string>,
                          top: nat, nodes: seq<Node>, n: Node)
    requires Wellformed(next, prev, value, top, nodes) && n != Head && n !in nodes
    ensures Wellformed(next - {n}, prev - {n}, value - {n}, top, nodes)
    ensures Values(value - {n}, nodes) == Values(value, nodes)
  {
    ValuesPointwise(value, nodes);
    ValuesPointwise(value - {n}, nodes);
  }

  class Queue {
    var next: map<Node, Node>
    var prev: map<Node, Node>
    var value: map<Node, string>
    /** Every address handed out so far is below `top`. */
    var top: nat
    ghost var nodes: seq<Node>

    ghost predicate Valid()
      reads this
    {
      Wellformed(next, prev, value, top, nodes)
    }

    /** The queue's strings, head first. */
    ghost function Contents(): seq<string>
      reads this
      requires Valid()
    {
      Values(value, nodes)
    }

    /** INIT_LIST_HEAD: the sentinel alone, linked to itself. */
    constructor ()
      ensures Valid() && Contents() == [] && value == map[]
      ensures next[Head] == Head && prev[Head] == Head
    {
      next := map[Head := Head];
      prev := map[Head := Head];
      value := map[];
      top := Head + 1;
      nodes := [];
    }

    /**
     * element_alloc: a fresh element address, or None when either allocation
     * fails; a failure leaves nothing behind.
     */
    method ElementAlloc() returns (elm: Option<Node>)
      requires Valid()
      modifies this
      ensures Valid()
      ensures next == old(next) && prev == old(prev) && value == old(value) && nodes == old(nodes)
      ensures elm.Some? ==> elm.value != Head && elm.value !in nodes && elm.value !in value && elm.value < top
      ensures elm.None? ==> unchanged(this)
    {
      if * {
        return None;
      }
      elm := Some(top);
      top := top + 1;
    }

    /** `list_add` or `list_add_tail`: link the detached node `n` between the adjacent nodes `p` and `s`, at ring position `k`. */
    method Link(n: Node, p: Node, s: Node, ghost k: nat)
      requires Valid()
      requires k <= |nodes| && p == At(nodes, k - 1) && s == At(nodes, k)
      requires n != Head && n !in nodes && n in value && NoNul(value[n]) && n < top
      modifies this
      ensures Valid()
      ensures nodes == old(nodes)[..k] + [n] + old(nodes)[k..]
      ensures value == old(value) && top == old(top)
      ensures Contents() == old(Contents())[..k] + [value[n]] + old(Contents())[k..]
    {
      InsertWellformed(next, prev, value, top, nodes, n, k);
      ValuesInsert(value, nodes, n, k);
      prev := prev[s := n];
      next := next[n := s];
      prev := prev[n := p];
      next := next[p := n];
      nodes := nodes[..k] + [n] + nodes[k..];
    }

    /** list_del: unlink the node at ring position `k`; its own links are left as they were. */
    method Unlink(n: Node, ghost k: nat)
      requires Valid()
      requires k < |nodes| && nodes[k] == n
      modifies this
      ensures Valid()
      ensures nodes == DropAt(old(nodes), k) && n !in nodes
      ensures value == old(value) && top == old(top)
      ensures Contents() == DropAt(old(Contents()), k)
    {
      Neighbours(next, prev, nodes, k);
      RemoveWellformed(next, prev, value, top, nodes, k);
      var p, s := prev[n], next[n];
      next := next[p := s];
      prev := prev[s := p];
      nodes := DropAt(nodes, k);
    }

    /**
     * The relinking step of q_swap: the adjacent nodes `a` and `b` at ring
     * positions `k` and `k + 1` change places through six link updates.
     */
    method SwapAdjacent(a: Node, b: Node, ghost k: nat)
      requires Valid()
      requires k + 1 < |nodes| && a == nodes[k] && b == nodes[k + 1]
      modifies this
      ensures Valid()
      ensures nodes == old(nodes)[k := b][k + 1 := a]
      ensures value == old(value) && top == old(top)
      ensures Head in next && a in next && next[a] == At(nodes, k + 2)
    {
      Neighbours(next, prev, nodes, k);
      Neighbours(next, prev, nodes, k + 1);
      SwapWellformed(next, prev, value, top, nodes, k);
      next := next[prev[a] := b];
      prev := prev[b := prev[a]];
      prev := prev[a := b];
      next := next[a := next[b]];
      prev := prev[next[b] := a];
      next := next[b := a];
      nodes := nodes[k := b][k + 1 := a];
    }

    /** `list_del` followed by `q_release_element`: the node at position `k` leaves the ring and memory. */
    method Discard(n: Node, ghost k: nat)
      requires Valid()
      requires k < |nodes| && nodes[k] == n
      modifies this
      ensures Valid()
      ensures nodes == DropAt(old(nodes), k) && top == old(top)
      ensures n !in value && value == old(value) - {n}
      ensures Contents() == DropAt(old(Contents()), k)
      ensures Elems(old(nodes)) == Elems(nodes) + {n}
    {
      ElemsDropAt(nodes, k);
      Unlink(n, k);
      Release(n);
    }

    /**
     * One pass of the q_delete_dup scan at ring position `k`: `cmp` says
     * whether the node's string equals its successor's, and the node is
     * discarded when that holds or when it equalled its predecessor.
     */
    method DeleteIfDup(elm: Node, foundDup: bool, ghost k: nat) returns (nextElm: Node, cmp: bool)
      requires Valid()
      requires k < |nodes| && nodes[k] == elm
      modifies this
      ensures Valid() && top == old(top)
      ensures nextElm == At(old(nodes), k + 1)
      ensures cmp == (k + 1 < |old(nodes)| && old(Contents())[k] == old(Contents())[k + 1])
      ensures cmp || foundDup ==>
                nodes == DropAt(old(nodes), k) && Contents() == DropAt(old(Contents()), k) && At(nodes, k) == nextElm
      ensures !(cmp || foundDup) ==>
                nodes == old(nodes) && Contents() == old(Contents()) && At(nodes, k + 1) == nextElm
      ensures cmp || foundDup ==> value == old(value) - {elm}
      ensures !(cmp || foundDup) ==> value == old(value)
      ensures cmp || foundDup ==> Elems(old(nodes)) == Elems(nodes) + {elm}
    {
      Neighbours(next, prev, nodes, k);
      nextElm := next[elm];
      ValuesAt(value, nodes, k);
      if nextElm != Head {
        ValuesAt(value, nodes, k + 1);
      }
      cmp := nextElm != Head && value[elm] == value[nextElm];
      if cmp || foundDup {
        Discard(elm, k);
      }
    }

    /** q_release_element: give back the memory of an element that is no longer linked. */
    method Release(n: Node)
      requires Valid()
      requires n != Head && n !in nodes
      modifies this
      ensures Valid()
      ensures nodes == old(nodes) && top == old(top) && Contents() == old(Contents())
      ensures next == old(next) - {n} && prev == old(prev) - {n}
      ensures n !in value && value == old(value) - {n}
    {
      ReleaseWellformed(next, prev, value, top, nodes, n);
      next := next - {n};
      prev := prev - {n};
      value := value - {n};
    }
  }

  /** q_new: an empty queue, or null when the allocation fails. */
  method New() returns (q: Queue?)
    ensures q != null ==> fresh(q) && q.Valid() && q.Contents() == []
    ensures q != null ==> q.next[Head] == Head && q.prev[Head] == Head
  {
    if * {
      q := null;
    } else {
      q := new Queue();
    }
  }

  /**
   * q_insert_head: false for a null queue or a failed allocation, leaving
   * the queue as it was; otherwise `s` becomes the first value.
   */
  method InsertHead(q: Queue?, s: string) returns (ok: bool)
    requires q != null ==> q.Valid()
    requires NoNul(s) && |s| < IntMax
    modifies q
    ensures q == null ==> !ok
    ensures q != null ==> q.Valid()
    ensures q != null && ok ==> q.Contents() == [s] + old(q.Contents())
    ensures q != null && ok ==>
              |q.nodes| == |old(q.nodes)| + 1 && q.nodes[1..] == old(q.nodes) && q.nodes[0] !in old(q.value)
    ensures q != null && !ok ==> unchanged(q)
    ensures q != null ==> forall n :: n in old(q.value) ==> n in q.value && q.value[n] == old(q.value)[n]
  {
    if q == null {
      return false;
    }
    var elm := q.ElementAlloc();
    if elm.None? {
      return false;
    }
    q.value := q.value[elm.value := s];
    ValuesFrame(old(q.value), q.value, q.nodes);
    q.Link(elm.value, Head, q.next[Head], 0);
    ok := true;
  }

  /**
   * q_insert_tail: false for a null queue or a failed allocation, leaving
   * the queue as it was; otherwise `s` becomes the last value.
   */
  method InsertTail(q: Queue?, s: string) returns (ok: bool)
    requires q != null ==> q.Valid()
    requires NoNul(s) && |s| < IntMax
    modifies q
    ensures q == null ==> !ok
    ensures q != null ==> q.Valid()
    ensures q != null && ok ==> q.Contents() == old(q.Contents()) + [s]
    ensures q != null && ok ==>
              |q.nodes| == |old(q.nodes)| + 1 && q.nodes[..|old(q.nodes)|] == old(q.nodes) &&
              q.nodes[|old(q.nodes)|] !in old(q.value)
    ensures q != null && !ok ==> unchanged(q)
    ensures q != null ==> forall n :: n in old(q.value) ==> n in q.value && q.value[n] == old(q.value)[n]
  {
    if q == null {
      return false;
    }
    var elm := q.ElementAlloc();
    if elm.None? {
      return false;
    }
    q.value := q.value[elm.value := s];
    ValuesFrame(old(q.value), q.value, q.nodes);
    q.Link(elm.value, q.prev[Head], Head, |q.nodes|);
    assert q.nodes[..|q.nodes| - 1] == old(q.nodes);
    ok := true;
  }

  /** The buffer state the copy-out of a removed value `v` promises. */
  ghost predicate CopiedOut(buf: seq<char>, before: seq<char>, v: string, bufsize: nat)
    requires 1 <= bufsize <= |buf| == |before|
  {
    buf[bufsize - 1] == Nul &&
    (forall i :: 0 <= i < bufsize - 1 && i < |v| ==> buf[i] == v[i]) &&
    (|v| < bufsize - 1 ==> buf[|v|] == Nul) &&
    buf[bufsize..] == before[bufsize..]
  }

  /**
   * The copy into `sp` in q_remove_head and q_remove_tail: the stored
   * characters and terminator, cut at `bufsize - 1`, and a NUL at
   * `sp[bufsize - 1]`; nothing at or past `bufsize` is written.
   */
  method CopyOut(sp: array<char>, v: string, bufsize: nat)
    requires 1 <= bufsize <= sp.Length && NoNul(v)
    modifies sp
    ensures CopiedOut(sp[..], old(sp[..]), v, bufsize)
    ensures CString(sp[..]) == Truncated(v, bufsize - 1)
  {
    var m := if bufsize - 1 <= |v| + 1 then bufsize - 1 else |v| + 1;
    forall i | 0 <= i < m {
      sp[i] := if i < |v| then v[i] else Nul;
    }
    sp[bufsize - 1] := Nul;
    var t := Truncated(v, bufsize - 1);
    assert sp[..][..|t|] == t;
    CStringOfTerminated(sp[..], t);
  }

  /**
   * q_remove_head: None, changing nothing, for a null or empty queue;
   * otherwise the first element is unlinked and returned with its string
   * still allocated, and copied out into `sp` when `sp` is not null.
   */
  method RemoveHead(q: Queue?, sp: array?<char>, bufsize: nat) returns (elm: Option<Node>)
    requires q != null ==> q.Valid()
    requires sp != null && q != null && q.nodes != [] ==> 1 <= bufsize <= sp.Length
    modifies q, sp
    ensures q != null ==> q.Valid()
    ensures q == null || old(q.Contents()) == [] ==>
              elm == None && (q != null ==> unchanged(q)) && (sp != null ==> unchanged(sp))
    ensures q != null && old(q.Contents()) != [] ==>
              elm == Some(old(q.nodes[0])) && q.value == old(q.value) &&
              q.nodes == old(q.nodes)[1..] && q.top == old(q.top) &&
              q.Contents() == old(q.Contents())[1..] &&
              (sp != null ==> CopiedOut(sp[..], old(sp[..]), old(q.Contents())[0], bufsize) &&
                              CString(sp[..]) == Truncated(old(q.Contents())[0], bufsize - 1))
  {
    if q == null || q.next[Head] == Head {
      if q != null {
        RingInvariant(q.next, q.prev, q.nodes);
      }
      return None;
    }
    var e := q.next[Head];
    ValuesAt(q.value, q.nodes, 0);
    if sp != null {
      CopyOut(sp, q.value[e], bufsize);
    }
    q.Unlink(e, 0);
    elm := Some(e);
  }

  /**
   * q_remove_tail: None, changing nothing, for a null or empty queue;
   * otherwise the last element is unlinked and returned with its string
   * still allocated, and copied out into `sp` when `sp` is not null.
   */
  method RemoveTail(q: Queue?, sp: array?<char>, bufsize: nat) returns (elm: Option<Node>)
    requires q != null ==> q.Valid()
    requires sp != null && q != null && q.nodes != [] ==> 1 <= bufsize <= sp.Length
    modifies q, sp
    ensures q != null ==> q.Valid()
    ensures q == null || old(q.Contents()) == [] ==>
              elm == None && (q != null ==> unchanged(q)) && (sp != null ==> unchanged(sp))
    ensures q != null && old(q.Contents()) != [] ==>
              elm == Some(old(q.nodes[|q.nodes| - 1])) && q.value == old(q.value) &&
              q.nodes == old(q.nodes)[..|old(q.nodes)| - 1] && q.top == old(q.top) &&
              q.Contents() == old(q.Contents())[..|old(q.Contents())| - 1] &&
              (sp != null ==> CopiedOut(sp[..], old(sp[..]), old(q.Contents())[|old(q.Contents())| - 1], bufsize) &&
                              CString(sp[..]) == Truncated(old(q.Contents())[|old(q.Contents())| - 1], bufsize - 1))
  {
    if q == null || q.next[Head] == Head {
      if q != null {
        RingInvariant(q.next, q.prev, q.nodes);
      }
      return None;
    }
    var e := q.prev[Head];
    ValuesAt(q.value, q.nodes, |q.nodes| - 1);
    if sp != null {
      CopyOut(sp, q.value[e], bufsize);
    }
    q.Unlink(e, |q.nodes| - 1);
    elm := Some(e);
  }

  /** q_size: 0 for a null queue, otherwise the number of nodes met walking the ring once. */
  method Size(q: Queue?) returns (len: int)
    requires q != null ==> q.Valid()
    ensures len == if q == null then 0 else |q.Contents()|
  {
    if q == null {
      return 0;
    }
    len := 0;
    var li := q.next[Head];
    while li != Head
      invariant 0 <= len <= |q.nodes| && li == At(q.nodes, len)
      decreases |q.nodes| - len
    {
      Neighbours(q.next, q.prev, q.nodes, len);
      len := len + 1;
      li := q.next[li];
    }
  }

  /**
   * q_delete_mid: false for a null or empty queue; otherwise the element at
   * index ⌊n/2⌋ is unlinked and released and the others keep their order.
   */
  method DeleteMid(q: Queue?) returns (ok: bool)
    requires q != null ==> q.Valid()
    modifies q
    ensures ok <==> q != null && old(q.Contents()) != []
    ensures q != null ==> q.Valid()
    ensures q != null && !ok ==> unchanged(q)
    ensures ok ==> q.Contents() == DropAt(old(q.Contents()), |old(q.Contents())| / 2)
    ensures ok ==> q.nodes == DropAt(old(q.nodes), |old(q.nodes)| / 2) && q.top == old(q.top) &&
                   q.value == old(q.value) - {old(q.nodes)[|old(q.nodes)| / 2]}
  {
    if q == null || q.next[Head] == Head {
      if q != null {
        RingInvariant(q.next, q.prev, q.nodes);
      }
      return false;
    }
    var slow, k := FindMid(q);
    q.Discard(slow, k);
    ok := true;
  }

  /**
   * The two walkers of q_delete_mid: `fast` takes two steps for each step of
   * `slow`, so `slow` stops at ring position ⌊n/2⌋ of a non-empty queue.
   */
  method FindMid(q: Queue) returns (slow: Node, ghost k: nat)
    requires q.Valid() && q.nodes != []
    ensures slow == q.nodes[|q.nodes| / 2]
    ensures k == |q.nodes| / 2
  {
    var fast := q.next[Head];
    slow := q.next[Head];
    k := 0;
    while fast != Head && q.next[fast] != Head
      invariant 0 <= 2 * k <= |q.nodes| && k < |q.nodes|
      invariant slow == At(q.nodes, k) && fast == At(q.nodes, 2 * k)
      decreases |q.nodes| - 2 * k
    {
      Neighbours(q.next, q.prev, q.nodes, k);
      Neighbours(q.next, q.prev, q.nodes, 2 * k);
      Neighbours(q.next, q.prev, q.nodes, 2 * k + 1);
      slow := q.next[slow];
      fast := q.next[q.next[fast]];
      k := k + 1;
    }
    if 2 * k < |q.nodes| {
      Neighbours(q.next, q.prev, q.nodes, 2 * k);
    }
    assert k == |q.nodes| / 2;
  }

  /**
   * The strings after deleting elements from the ring `nodes0`, leaving
   * `nodes1`: entries are only lost, never changed; every element outside
   * the ring keeps its string; and every element that left the ring was
   * released.
   */
  ghost predicate Shrunk(value0: map<Node, string>, value1: map<Node, string>, nodes0: seq<Node>, nodes1: seq<Node>) {
    (forall n :: n in value1 ==> n in value0 && value1[n] == value0[n]) &&
    (forall n :: n in value0 && n !in nodes0 ==> n in value1) &&
    (forall n :: n in nodes0 && n !in nodes1 ==> n !in value1) &&
    (forall n :: n in nodes1 ==> n in nodes0)
  }

  /** The elements of the ring `nodes`. */
  ghost function Elems(nodes: seq<Node>): set<Node> {
    set n | n in nodes
  }

  /** Removing position `k` takes exactly the element there out of the ring, when no element repeats. */
  lemma ElemsDropAt(nodes: seq<Node>, k: nat)
    requires Distinct(nodes) && k < |nodes|
    ensures Elems(nodes) == Elems(DropAt(nodes, k)) + {nodes[k]}
    ensures nodes[k] !in Elems(DropAt(nodes, k))
  {
    var rest := DropAt(nodes, k);
    forall n | n in nodes
      ensures n in rest || n == nodes[k]
    {
      var j :| 0 <= j < |nodes| && nodes[j] == n;
      if j < k {
        assert rest[j] == n;
      } else if k < j {
        assert rest[j - 1] == n;
      }
    }
  }

  /** Releasing the nodes `gone` that left the ring leaves the strings as `Shrunk` describes. */
  lemma ShrunkByRelease(value0: map<Node, string>, nodes0: seq<Node>, nodes1: seq<Node>, gone: set<Node>)
    requires Elems(nodes1) + gone == Elems(nodes0)
    ensures Shrunk(value0, value0 - gone, nodes0, nodes1)
  {
    forall n | n in nodes0 && n !in nodes1
      ensures n in gone
    {
      assert n in Elems(nodes0) && n !in Elems(nodes1);
    }
    forall n | n in nodes1
      ensures n in nodes0
    {
      assert n in Elems(nodes1);
    }
  }

  /**
   * Releasing one more node `n` of the ring `nodes`, after the nodes `gone`
   * already left the ring `nodes0`, adds `n` to the nodes gone.
   */
  lemma ReleaseOneMore(value0: map<Node, string>, nodes0: seq<Node>, gone: set<Node>,
                       value: map<Node, string>, nodes: seq<Node>, value': map<Node, string>, nodes': seq<Node>, n: Node)
    requires value == value0 - gone && Elems(nodes) + gone == Elems(nodes0)
    requires value' == value - {n} && Elems(nodes) == Elems(nodes') + {n}
    ensures value' == value0 - (gone + {n}) && Elems(nodes') + (gone + {n}) == Elems(nodes0)
  {
    assert (value0 - gone) - {n} == value0 - (gone + {n});
  }

  /**
   * The state of q_delete_dup's loop after the first `i` of the original
   * strings `s` (held by the ring `nodes0`, with owned strings `value0`):
   * the queue holds their `k` survivors followed by the strings not yet
   * visited, `elm` is the node visited next, `foundDup` says whether it
   * equals its predecessor, and the released nodes are `gone`.
   */
  ghost predicate Scanning(q: Queue, s: seq<string>, value0: map<Node, string>, nodes0: seq<Node>,
                           i: nat, k: nat, elm: Node, foundDup: bool, gone: set<Node>)
    reads q
  {
    && q.Valid() && i <= |s| == |nodes0|
    && k == |Survivors(s, i)| && |q.nodes| == k + |s| - i
    && elm == At(q.nodes, k) && q.Contents() == Survivors(s, i) + s[i..]
    && foundDup == (0 < i < |s| && s[i - 1] == s[i])
    && q.value == value0 - gone && Elems(q.nodes) + gone == Elems(nodes0)
    && q.nodes == Kept(nodes0, s, i) + nodes0[i..]
  }

  /**
   * One turn of q_delete_dup's loop at position `i` of the original strings
   * `s`, with `k` survivors so far: the element `elm` is released when it
   * equals its successor or its predecessor did, and the queue then holds
   * the survivors of one more position.
   */
  method DedupStep(q: Queue, elm: Node, foundDup: bool, ghost s: seq<string>, ghost i: nat, ghost k: nat,
                   ghost value0: map<Node, string>, ghost nodes0: seq<Node>, ghost gone: set<Node>)
    returns (nextElm: Node, cmp: bool, ghost k1: nat, ghost gone1: set<Node>)
    requires i < |s| && Scanning(q, s, value0, nodes0, i, k, elm, foundDup, gone)
    modifies q
    ensures q.top == old(q.top) && Scanning(q, s, value0, nodes0, i + 1, k1, nextElm, cmp, gone1)
  {
    ghost var before, value, nodes := q.Contents(), q.value, q.nodes;
    nextElm, cmp := q.DeleteIfDup(elm, foundDup, k);
    ScanStep(s, i, before, k, cmp, foundDup);
    KeptStep(nodes0, s, i);
    if cmp || foundDup {
      k1, gone1 := k, gone + {elm};
      ReleaseOneMore(value0, nodes0, gone, value, nodes, q.value, q.nodes, elm);
    } else {
      k1, gone1 := k + 1, gone;
    }
  }

  /**
   * q_delete_dup: false for a null queue; otherwise every element whose
   * string equals that of a neighbour is unlinked and released in one pass,
   * and the rest keep their order.
   */
  method DeleteDup(q: Queue?) returns (ok: bool)
    requires q != null ==> q.Valid()
    modifies q
    ensures ok <==> q != null
    ensures q != null ==> q.Valid() && q.Contents() == DropDuplicates(old(q.Contents()))
    ensures q != null ==> q.top == old(q.top) && Shrunk(old(q.value), q.value, old(q.nodes), q.nodes)
    ensures q != null ==> q.nodes == Kept(old(q.nodes), old(q.Contents()), |old(q.nodes)|)
  {
    if q == null {
      return false;
    }
    RingInvariant(q.next, q.prev, q.nodes);
    if q.next[Head] == Head || q.next[Head] == q.prev[Head] {
      assert |q.Contents()| <= 1;
      DropDuplicatesShort(q.Contents());
      KeptShort(q.nodes, q.Contents());
      ShrunkByRelease(q.value, q.nodes, q.nodes, {});
      return true;
    }
    DedupScan(q);
    ok := true;
  }

  /**
   * The loop of q_delete_dup: walks the queue once, comparing each element
   * with its successor, and releases every element that equals a neighbour.
   */
  method DedupScan(q: Queue)
    requires q.Valid()
    modifies q
    ensures q.Valid() && q.Contents() == DropDuplicates(old(q.Contents()))
    ensures q.top == old(q.top) && Shrunk(old(q.value), q.value, old(q.nodes), q.nodes)
    ensures q.nodes == Kept(old(q.nodes), old(q.Contents()), |old(q.nodes)|)
  {
    ghost var gone := DedupLoop(q, q.Contents(), q.value, q.nodes);
    ShrunkByRelease(old(q.value), old(q.nodes), q.nodes, gone);
  }

  /**
   * The walk itself, stated against the snapshot `s`, `value0`, `nodes0` of
   * the queue it starts from; `gone` is the set of released nodes.
   */
  method DedupLoop(q: Queue, ghost s: seq<string>, ghost value0: map<Node, string>, ghost nodes0: seq<Node>)
    returns (ghost gone: set<Node>)
    requires q.Valid() && s == q.Contents() && value0 == q.value && nodes0 == q.nodes
    modifies q
    ensures q.Valid() && q.top == old(q.top) && q.Contents() == DropDuplicates(s)
    ensures q.value == value0 - gone && Elems(q.nodes) + gone == Elems(nodes0)
    ensures q.nodes == Kept(nodes0, s, |nodes0|)
  {
    ghost var i, k := 0, 0;
    gone := {};
    assert nodes0[0..] == nodes0;
    var elm := q.next[Head];
    var foundDup := false;
    while elm != Head
      invariant i <= |s| && q.top == old(q.top)
      invariant Scanning(q, s, value0, nodes0, i, k, elm, foundDup, gone)
      decreases |s| - i
    {
      elm, foundDup, k, gone := DedupStep(q, elm, foundDup, s, i, k, value0, nodes0, gone);
      i := i + 1;
    }
    assert i == |s| && s[i..] == [];
    KeptDone(nodes0, s, i);
  }

  /**
   * q_swap: nodes at positions (0,1), (2,3), ... are relinked in swapped
   * order, a last unpaired node stays; nothing happens to a null, empty or
   * one-element queue.
   */
  method Swap(q: Queue?)
    requires q != null ==> q.Valid()
    modifies q
    ensures q != null ==> q.Valid() && q.value == old(q.value)
    ensures q != null ==> q.nodes == SwapPairs(old(q.nodes))
    ensures q != null ==> q.Contents() == SwapPairs(old(q.Contents()))
    ensures q != null ==> q.top == old(q.top)
    ensures q != null && |old(q.nodes)| <= 1 ==> unchanged(q)
  {
    if q == null {
      return;
    }
    RingInvariant(q.next, q.prev, q.nodes);
    if q.next[Head] == Head || q.next[Head] == q.prev[Head] {
      assert |q.nodes| <= 1 && |q.Contents()| <= 1;
      return;
    }
    ghost var all := q.nodes;
    assert 2 <= |all|;
    ghost var k := 0;
    var a := q.next[Head];
    var b := q.next[a];
    // q_swap's do-while: the first test holds, as the queue has two nodes.
    while a != Head && b != Head
      invariant q.Valid() && q.value == old(q.value) && q.top == old(q.top)
      invariant k % 2 == 0 && k <= |all| == |q.nodes|
      invariant q.nodes == SwappedBelow(all, k)
      invariant a == At(q.nodes, k) && (a != Head ==> b == At(q.nodes, k + 1))
      decreases |all| - k
    {
      SwappedBelowStep(all, k);
      q.SwapAdjacent(a, b, k);
      k := k + 2;
      a := q.next[a];
      if a != Head {
        Neighbours(q.next, q.prev, q.nodes, k);
      }
      b := q.next[a];
    }
    SwapPairsDone(all, k);
    ValuesSwapPairs(q.value, all);
  }

  /** q_reverse: its body in queue.c is empty, so the queue is left as it is. */
  method Reverse(q: Queue?)
    requires q != null ==> q.Valid()
    ensures q != null ==> q.Valid() && q.Contents() == old(q.Contents())
  {
  }

  /** q_sort: its body in queue.c is empty, so the queue is left as it is. */
  method Sort(q: Queue?)
    requires q != null ==> q.Valid()
    ensures q != null ==> q.Valid() && q.Contents() == old(q.Contents())
  {
  }
}
