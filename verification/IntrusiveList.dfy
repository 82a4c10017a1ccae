/**
 The intrusive doubly linked list, in the variant that keeps a pointer to both ends.

 The links live in the elements themselves.  The model keeps the pointer updates and proves that
 the list refines a plain sequence: every operation does to the sequence what its name says, and
 walking the links in either direction visits it.
 */
module IntrusiveList {

  class Node {
    var next: Node?
    var prev: Node?

    constructor ()
      ensures next == null && prev == null
    {
      next, prev := null, null;
    }

    /** Bridges the gap between the neighbours and clears the node's own links. */
    method Unlink()
      requires next != this && prev != this
      modifies this, next, prev
      ensures next == null && prev == null
      ensures old(next) != null && old(next) != old(prev) ==>
                old(next).prev == old(prev) && old(next).next == old(next.next)
      ensures old(prev) != null && old(next) != old(prev) ==>
                old(prev).next == old(next) && old(prev).prev == old(prev.prev)
    {
      if next != null {
        next.prev := prev;
      }
      if prev != null {
        prev.next := next;
      }
      next, prev := null, null;
    }
  }

  /** The element before position `i`, or null at the front. */
  ghost function Before(nodes: seq<Node>, i: nat): Node?
    requires i <= |nodes|
  {
    if i == 0 then null else nodes[i - 1]
  }

  /** The element at position `i`, or null past the end. */
  ghost function At(nodes: seq<Node>, i: nat): Node?
    requires i <= |nodes|
  {
    if i == |nodes| then null else nodes[i]
  }

  /** The sequence without its element at position `k`. */
  ghost function Cut(nodes: seq<Node>, k: nat): seq<Node>
    requires k < |nodes|
  {
    nodes[..k] + nodes[k + 1..]
  }

  /** The neighbours in a sequence with one element cut out. */
  lemma CutAt(nodes: seq<Node>, k: nat, i: nat)
    requires k < |nodes| && i < |nodes| - 1
    ensures var cut, j := Cut(nodes, k), if i < k then i else i + 1;
            && cut[i] == nodes[j]
            && At(cut, i + 1) == (if j + 1 == k then At(nodes, k + 1) else At(nodes, j + 1))
            && Before(cut, i) == if j == k + 1 then Before(nodes, k) else Before(nodes, j)
  {
  }

  lemma CutEnds(nodes: seq<Node>, k: nat)
    requires k < |nodes| && forall i, j :: 0 <= i < j < |nodes| ==> nodes[i] != nodes[j]
    ensures forall i, j :: 0 <= i < j < |nodes| - 1 ==> Cut(nodes, k)[i] != Cut(nodes, k)[j]
    ensures nodes[k] !in Cut(nodes, k)
    ensures At(Cut(nodes, k), 0) == At(nodes, if k == 0 then 1 else 0)
    ensures Before(Cut(nodes, k), |nodes| - 1) == Before(nodes, if k == |nodes| - 1 then k else |nodes|)
  {
  }

  function Reversed<T>(s: seq<T>): (r: seq<T>)
    ensures |r| == |s| && forall i :: 0 <= i < |s| ==> r[i] == s[|s| - 1 - i]
  {
    if s == [] then [] else [s[|s| - 1]] + Reversed(s[..|s| - 1])
  }

  class List {
    var listhead: Node?
    var listtail: Node?
    var listsize: nat
    ghost var nodes: seq<Node>

    ghost predicate Valid()
      reads this, nodes
    {
      && (forall i, j :: 0 <= i < j < |nodes| ==> nodes[i] != nodes[j])
      && (forall i {:trigger nodes[i].next} :: 0 <= i < |nodes| ==> nodes[i].next == At(nodes, i + 1))
      && (forall i {:trigger nodes[i].prev} :: 0 <= i < |nodes| ==> nodes[i].prev == Before(nodes, i))
      && listhead == At(nodes, 0)
      && listtail == Before(nodes, |nodes|)
      && listsize == |nodes|
    }

    constructor ()
      ensures Valid() && nodes == []
    {
      listhead, listtail, listsize, nodes := null, null, 0, [];
    }

    /** A node that is in no list can go to the front. */
    method PushFront(x: Node)
      requires Valid() && x !in nodes && x.next == null && x.prev == null
      modifies this, x, listhead
      ensures Valid() && nodes == [x] + old(nodes)
    {
      listsize := listsize + 1;
      if listsize - 1 != 0 {
        x.next := listhead;
        listhead.prev := x;
      } else {
        listtail := x;
      }
      listhead := x;
      nodes := [x] + nodes;
    }

    method PushBack(x: Node)
      requires Valid() && x !in nodes && x.next == null && x.prev == null
      modifies this, x, listtail
      ensures Valid() && nodes == old(nodes) + [x]
    {
      listsize := listsize + 1;
      if listsize - 1 != 0 {
        x.prev := listtail;
        listtail.next := x;
      } else {
        listhead := x;
      }
      listtail := x;
      nodes := nodes + [x];
    }

    /** Takes out the element at position `k`; it can be pushed again afterwards. */
    method Erase(x: Node, ghost k: nat)
      requires Valid() && k < |nodes| && nodes[k] == x
      modifies this, nodes
      ensures Valid() && nodes == Cut(old(nodes), k)
      ensures x !in nodes && x.next == null && x.prev == null
    {
      if listhead == x {
        listhead := x.next;
      }
      if listtail == x {
        listtail := x.prev;
      }
      assert x.next == At(nodes, k + 1) && x.prev == Before(nodes, k);
      x.Unlink();
      listsize := listsize - 1;
      nodes := Cut(nodes, k);
      Bridged(k);
    }

    /** With the gap at position `k` bridged the remaining nodes form a list again. */
    twostate lemma Bridged(k: nat)
      requires old(Valid()) && k < |old(nodes)| && nodes == Cut(old(nodes), k)
      requires forall j :: 0 <= j < |old(nodes)| && j != k ==>
                 && old(nodes)[j].next == (if j + 1 == k then At(old(nodes), k + 1) else At(old(nodes), j + 1))
                 && old(nodes)[j].prev == if j == k + 1 then Before(old(nodes), k) else Before(old(nodes), j)
      requires listhead == At(old(nodes), if k == 0 then 1 else 0) && listsize == |nodes|
      requires listtail == Before(old(nodes), if k == |nodes| then k else |old(nodes)|)
      ensures Valid()
    {
      hide At, Before;
      CutEnds(old(nodes), k);
      forall i | 0 <= i < |nodes|
        ensures nodes[i].next == At(nodes, i + 1) && nodes[i].prev == Before(nodes, i)
      {
        CutAt(old(nodes), k, i);
      }
    }

    method PopFront()
      requires Valid() && nodes != []
      modifies this, nodes
      ensures Valid() && nodes == old(nodes)[1..]
      ensures old(nodes)[0].next == null && old(nodes)[0].prev == null
    {
      Erase(listhead, 0);
    }

    method PopBack()
      requires Valid() && nodes != []
      modifies this, nodes
      ensures Valid() && nodes == old(nodes)[..|old(nodes)| - 1]
      ensures old(nodes)[|old(nodes)| - 1].next == null && old(nodes)[|old(nodes)| - 1].prev == null
    {
      Erase(listtail, |nodes| - 1);
    }

    /** Walking from the head along the next links visits the sequence in exactly `size()` steps. */
    method WalkForward() returns (visited: seq<Node>)
      requires Valid()
      ensures visited == nodes && |visited| == listsize
    {
      visited := [];
      var curr := listhead;
      while curr != null
        invariant |visited| <= |nodes| && visited == nodes[..|visited|]
        invariant curr == At(nodes, |visited|)
        decreases |nodes| - |visited|
      {
        visited := visited + [curr];
        curr := curr.next;
      }
    }

    /** Walking from the tail along the previous links visits it in reverse. */
    method WalkBackward() returns (visited: seq<Node>)
      requires Valid()
      ensures visited == Reversed(nodes) && |visited| == listsize
    {
      visited := [];
      var curr := listtail;
      while curr != null
        invariant |visited| <= |nodes|
        invariant forall i :: 0 <= i < |visited| ==> visited[i] == nodes[|nodes| - 1 - i]
        invariant curr == Before(nodes, |nodes| - |visited|)
        decreases |nodes| - |visited|
      {
        visited := visited + [curr];
        curr := curr.prev;
      }
    }
  }

  /** What a client may do to a list, in terms of the sequence it stands for. */
  datatype Op = PushFront(x: Node) | PushBack(x: Node) | PopFront | PopBack | Erase(x: Node)

  ghost function Without(nodes: seq<Node>, x: Node): seq<Node>
  {
    if nodes == [] then [] else if nodes[0] == x then nodes[1..] else [nodes[0]] + Without(nodes[1..], x)
  }

  ghost predicate Allowed(nodes: seq<Node>, op: Op)
  {
    match op
    case PushFront(x) => x !in nodes
    case PushBack(x) => x !in nodes
    case PopFront => nodes != []
    case PopBack => nodes != []
    case Erase(x) => x in nodes
  }

  ghost function Apply(nodes: seq<Node>, op: Op): seq<Node>
    requires Allowed(nodes, op)
  {
    match op
    case PushFront(x) => [x] + nodes
    case PushBack(x) => nodes + [x]
    case PopFront => nodes[1..]
    case PopBack => nodes[..|nodes| - 1]
    case Erase(x) => Without(nodes, x)
  }

  ghost predicate AllAllowed(nodes: seq<Node>, ops: seq<Op>)
    decreases ops
  {
    ops == [] || (Allowed(nodes, ops[0]) && AllAllowed(Apply(nodes, ops[0]), ops[1..]))
  }

  ghost function ApplyAll(nodes: seq<Node>, ops: seq<Op>): seq<Node>
    requires AllAllowed(nodes, ops)
    decreases ops
  {
    if ops == [] then nodes else ApplyAll(Apply(nodes, ops[0]), ops[1..])
  }

  lemma {:induction false} WithoutAt(nodes: seq<Node>, k: nat)
    requires k < |nodes| && nodes[k] !in nodes[..k]
    ensures Without(nodes, nodes[k]) == Cut(nodes, k)
    decreases nodes
  {
    if k > 0 {
      var rest := nodes[1..];
      assert nodes[0] in nodes[..k];
      assert rest[..k - 1] == nodes[..k][1..] && rest[k - 1] == nodes[k];
      WithoutAt(rest, k - 1);
      assert [nodes[0]] + Cut(rest, k - 1) == Cut(nodes, k);
    }
  }

  ghost predicate UsesOnly(op: Op, pool: set<Node>)
  {
    match op
    case PushFront(x) => x in pool
    case PushBack(x) => x in pool
    case Erase(x) => x in pool
    case _ => true
  }

  /** The list is valid and every node of the pool outside it is ready to be pushed. */
  ghost predicate ListOver(list: List, pool: set<Node>)
    reads list, pool
  {
    && (forall i :: 0 <= i < |list.nodes| ==> list.nodes[i] in pool)
    && list.Valid()
    && (forall n :: n in pool && n !in list.nodes ==> n.next == null && n.prev == null)
  }

  method Perform(list: List, op: Op, ghost pool: set<Node>)
    requires ListOver(list, pool) && UsesOnly(op, pool) && Allowed(list.nodes, op)
    modifies list, pool
    ensures ListOver(list, pool) && list.nodes == Apply(old(list.nodes), op)
  {
    match op
    case PushFront(x) => list.PushFront(x);
    case PushBack(x) => list.PushBack(x);
    case PopFront => list.PopFront();
    case PopBack => list.PopBack();
    case Erase(x) => PerformErase(list, x, pool);
  }

  method PerformErase(list: List, x: Node, ghost pool: set<Node>)
    requires ListOver(list, pool) && x in pool && x in list.nodes
    modifies list, pool
    ensures ListOver(list, pool) && list.nodes == Without(old(list.nodes), x)
  {
    hide At, Before, Without;
    ghost var k :| 0 <= k < |list.nodes| && list.nodes[k] == x;
    WithoutAt(list.nodes, k);
    list.Erase(x, k);
  }

  /** Any sequence of operations does to the list what it does to a plain sequence. */
  method PerformAll(list: List, ops: seq<Op>, ghost pool: set<Node>)
    requires ListOver(list, pool) && AllAllowed(list.nodes, ops)
    requires forall i :: 0 <= i < |ops| ==> UsesOnly(ops[i], pool)
    modifies list, pool
    ensures ListOver(list, pool) && list.nodes == ApplyAll(old(list.nodes), ops)
  {
    if ops != [] {
      Perform(list, ops[0], pool);
      PerformAll(list, ops[1..], pool);
    }
  }
}
