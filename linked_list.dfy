/** The operations of the doubly linked list. Every operation takes the
    context and nodes as possibly-null references, as the C functions take
    pointers, so that the NULL-argument error paths are part of the model.
    A C out-parameter `T **out` becomes a flag saying whether the pointer is
    non-null, together with a result that is `None` (or null) where the C
    function leaves `*out` unwritten. Whether `calloc` succeeds is the input
    `allocOk`. */
module LinkedList {
  import opened CoronachatStatus
  import opened LinkedListInternals

  /** `LINKED_LIST_init`: a new, empty list, or an error and no list. */
  method Init<D>(toInitPresent: bool, allocOk: bool) returns (status: Status, list: Context?<D>)
    ensures !toInitPresent ==> status == LinkedListInitInvalidParameters && list == null
    ensures toInitPresent && !allocOk ==> status == LinkedListInitAllocListContextFailure && list == null
    ensures toInitPresent && allocOk ==> status == Success && list != null && fresh(list)
    ensures list != null ==> list.Valid() && list.nodes == [] && list.disposed == []
    ensures list != null ==> list.head == null && list.tail == null && list.nodeCount == 0
  {
    status := Uninitialized;
    list := null;
    if !toInitPresent {
      status := LinkedListInitInvalidParameters;
      return;
    }
    if !allocOk {
      status := LinkedListInitAllocListContextFailure;
      return;
    }
    // The context is handed to the caller at once, so the cleanup path that
    // would free a half-built context is never taken.
    list := new Context();
    status := Success;
  }

  /** `LINKED_LIST_free`: removes the tail until the list is empty, so every
      payload is disposed of exactly once, from tail to head. The status of
      each removal is folded in with the best-effort rule and then
      overwritten: any non-null list yields SUCCESS. Releasing the context
      itself is not modelled; the drained context is what remains. */
  method Free<D>(toFree: Context?<D>) returns (status: Status)
    requires toFree != null ==> toFree.Valid()
    modifies toFree, if toFree == null then [] else toFree.nodes
    ensures toFree == null ==> status == LinkedListFreeInvalidParameters
    ensures toFree != null ==> status == Success
    ensures toFree != null ==> toFree.Valid() && toFree.nodes == []
    ensures toFree != null ==> toFree.head == null && toFree.tail == null && toFree.nodeCount == 0
    ensures toFree != null ==> toFree.disposed == old(toFree.disposed) + Reverse(Payloads(old(toFree.nodes)))
  {
    var internalStatus := Uninitialized;
    status := Uninitialized;
    if toFree == null {
      status := LinkedListFreeInvalidParameters;
      return;
    }
    ghost var all := toFree.nodes;
    ghost var log := toFree.disposed;
    while toFree.head != null
      invariant status == Uninitialized
      invariant toFree.Valid()
      invariant |toFree.nodes| <= |all| && toFree.nodes == all[..|toFree.nodes|]
      invariant toFree.disposed == log + Reverse(Payloads(all[|toFree.nodes|..]))
      decreases |toFree.nodes|
    {
      ghost var before, disposedBefore := toFree.nodes, toFree.disposed;
      assert toFree.tail == before[|before| - 1];
      internalStatus := Remove(toFree, toFree.tail);
      if TestFailure(internalStatus) {
        status := BestEffortUpdate(internalStatus, status);
      }
      DrainStep(all, before, toFree.nodes, log, disposedBefore, toFree.disposed);
    }
    status := Success;
  }

  /** One turn of the loop in `LINKED_LIST_free`: removing the last of the
      remaining prefix `before` of `all` leaves a prefix one shorter, and the
      disposal log grows by the payload of the removed node, so it stays the
      tail-first log of everything removed so far. */
  lemma DrainStep<D>(all: seq<Node<D>>, before: seq<Node<D>>, after: seq<Node<D>>,
                     log: seq<D>, disposedBefore: seq<D>, disposedAfter: seq<D>)
    requires |before| <= |all| && before == all[..|before|] && before != []
    requires after == RemoveAt(before, |before| - 1)
    requires disposedBefore == log + Reverse(Payloads(all[|before|..]))
    requires disposedAfter == disposedBefore + [before[|before| - 1].data]
    ensures |after| <= |all| && after == all[..|after|]
    ensures disposedAfter == log + Reverse(Payloads(all[|after|..]))
  {
  }

  /** `LINKED_LIST_append`: a new node holding `data` immediately after
      `reference`, or at the tail when there is no reference. */
  method Append<D>(list: Context?<D>, reference: Node?<D>, data: Option<D>,
                   freeingMethod: Option<FreeingMethod<D>>, allocOk: bool)
    returns (status: Status)
    requires list != null ==> list.Valid()
    requires list != null && reference != null ==> reference in list.nodes
    modifies list, if list == null then [] else list.nodes
    ensures list == null || data.None? || freeingMethod.None? ==> status == LinkedListAppendInvalidParameters
    ensures list != null && data.Some? && freeingMethod.Some? ==>
      status == if allocOk then Success else LinkedListCreateNodeAllocNodeFailure
    ensures list != null ==> list.Valid() && list.disposed == old(list.disposed)
    ensures list != null && status != Success ==> unchanged(list) && unchanged(list.nodes)
    ensures status == Success ==>
      && list != null && data.Some?
      && var k := InsertionIndex(old(list.nodes), reference, PositionNext);
      && |list.nodes| == |old(list.nodes)| + 1
      && list.nodes == InsertAt(old(list.nodes), k, list.nodes[k])
      && fresh(list.nodes[k])
      && list.nodes[k].data == data.value && list.nodes[k].freeingMethod == freeingMethod
      && (reference == null ==> list.tail == list.nodes[k])
      && (reference != null ==> reference.next == list.nodes[k] && list.nodes[k].prev == reference)
  {
    status := Uninitialized;
    if list == null || data.None? || freeingMethod.None? {
      status := LinkedListAppendInvalidParameters;
      return;
    }
    ghost var k := if reference == null then |list.nodes| else IndexOf(list.nodes, reference) + 1;
    status := AddNode(list, reference, PositionNext, data, freeingMethod, allocOk);
    if TestFailure(status) {
      return;
    }
    assert reference != null ==> list.nodes[k - 1] == reference;
    status := Success;
  }

  /** `LINKED_LIST_prepend`: a new node holding `data` immediately before
      `reference`, or at the head when there is no reference. */
  method Prepend<D>(list: Context?<D>, reference: Node?<D>, data: Option<D>,
                    freeingMethod: Option<FreeingMethod<D>>, allocOk: bool)
    returns (status: Status)
    requires list != null ==> list.Valid()
    requires list != null && reference != null ==> reference in list.nodes
    modifies list, if list == null then [] else list.nodes
    ensures list == null || data.None? || freeingMethod.None? ==> status == LinkedListPrependInvalidParameters
    ensures list != null && data.Some? && freeingMethod.Some? ==>
      status == if allocOk then Success else LinkedListCreateNodeAllocNodeFailure
    ensures list != null ==> list.Valid() && list.disposed == old(list.disposed)
    ensures list != null && status != Success ==> unchanged(list) && unchanged(list.nodes)
    ensures status == Success ==>
      && list != null && data.Some?
      && var k := InsertionIndex(old(list.nodes), reference, PositionPrev);
      && |list.nodes| == |old(list.nodes)| + 1
      && list.nodes == InsertAt(old(list.nodes), k, list.nodes[k])
      && fresh(list.nodes[k])
      && list.nodes[k].data == data.value && list.nodes[k].freeingMethod == freeingMethod
      && (reference == null ==> list.head == list.nodes[k])
      && (reference != null ==> reference.prev == list.nodes[k] && list.nodes[k].next == reference)
  {
    status := Uninitialized;
    if list == null || data.None? || freeingMethod.None? {
      status := LinkedListPrependInvalidParameters;
      return;
    }
    ghost var k := if reference == null then 0 else IndexOf(list.nodes, reference);
    status := AddNode(list, reference, PositionPrev, data, freeingMethod, allocOk);
    if TestFailure(status) {
      return;
    }
    assert reference != null ==> list.nodes[k + 1] == reference;
    status := Success;
  }

  /** `LINKED_LIST_get_next`: the head when there is no reference, otherwise
      the node after `reference`, each written out only when asked for. The
      list is not changed. The source reads the data of the node it finds
      without a null check, so that node must exist. */
  method GetNext<D>(list: Context?<D>, reference: Node?<D>, nextPresent: bool, nextDataPresent: bool)
    returns (status: Status, next: Option<Node<D>>, nextData: Option<D>)
    requires list != null ==> list.Valid()
    requires list != null && reference != null ==> reference in list.nodes
    requires list != null ==> TargetExists(list.nodes, reference, PositionNext)
    ensures list == null ==> status == LinkedListGetNextInvalidParameters && next == None && nextData == None
    ensures list != null ==>
      && status == Success
      && var i := if reference == null then 0 else IndexOf(list.nodes, reference) + 1;
      && i < |list.nodes|
      && next == (if nextPresent then Some(list.nodes[i]) else None)
      && nextData == (if nextDataPresent then Some(list.nodes[i].data) else None)
  {
    status := Uninitialized;
    next, nextData := None, None;
    if list == null {
      status := LinkedListGetNextInvalidParameters;
      return;
    }
    var localNext, localNextData;
    status, localNext, localNextData := GetNode(list, reference, PositionNext, true, true);
    if !TestFailure(status) {
      if nextPresent {
        next := localNext;
      }
      if nextDataPresent {
        nextData := localNextData;
      }
      status := Success;
    }
  }

  /** `LINKED_LIST_get_prev`: the tail when there is no reference, otherwise
      the node before `reference`; the mirror image of `GetNext`. */
  method GetPrev<D>(list: Context?<D>, reference: Node?<D>, prevPresent: bool, prevDataPresent: bool)
    returns (status: Status, prev: Option<Node<D>>, prevData: Option<D>)
    requires list != null ==> list.Valid()
    requires list != null && reference != null ==> reference in list.nodes
    requires list != null ==> TargetExists(list.nodes, reference, PositionPrev)
    ensures list == null ==> status == LinkedListGetPrevInvalidParameters && prev == None && prevData == None
    ensures list != null ==>
      && status == Success
      && var i := if reference == null then |list.nodes| - 1 else IndexOf(list.nodes, reference) - 1;
      && 0 <= i < |list.nodes|
      && prev == (if prevPresent then Some(list.nodes[i]) else None)
      && prevData == (if prevDataPresent then Some(list.nodes[i].data) else None)
  {
    status := Uninitialized;
    prev, prevData := None, None;
    if list == null {
      status := LinkedListGetPrevInvalidParameters;
      return;
    }
    var localPrev, localPrevData;
    status, localPrev, localPrevData := GetNode(list, reference, PositionPrev, true, true);
    if !TestFailure(status) {
      if prevPresent {
        prev := localPrev;
      }
      if prevDataPresent {
        prevData := localPrevData;
      }
      status := Success;
    }
  }

  /** `LINKED_LIST_get_node_count`: the number of nodes in the list. On a
      NULL argument the source returns the get_prev error code. */
  method GetNodeCount<D>(list: Context?<D>, nodeCountPresent: bool) returns (status: Status, nodeCount: Option<nat>)
    requires list != null ==> list.Valid()
    ensures list == null || !nodeCountPresent ==>
      status == LinkedListGetPrevInvalidParameters && nodeCount == None
    ensures list != null && nodeCountPresent ==> status == Success && nodeCount == Some(|list.nodes|)
  {
    status := Uninitialized;
    nodeCount := None;
    if list == null || !nodeCountPresent {
      status := LinkedListGetPrevInvalidParameters;
      return;
    }
    var localNodeCount := list.nodeCount;
    nodeCount := Some(localNodeCount);
    status := Success;
  }

  /** `LINKED_LIST_remove`: unlinks `toRemove`, fixing the head or the tail
      when it is an end, drops the count by one and disposes of its data once.
      The result is SUCCESS whatever the freeing method reports. */
  method Remove<D>(list: Context?<D>, toRemove: Node?<D>) returns (status: Status)
    requires list != null ==> list.Valid()
    requires list != null && toRemove != null ==> toRemove in list.nodes
    modifies list, if list == null then [] else list.nodes
    ensures list == null || toRemove == null ==> status == LinkedListRemoveInvalidParameters
    ensures list != null ==> list.Valid()
    ensures list != null && toRemove == null ==> unchanged(list) && unchanged(list.nodes)
    ensures list != null && toRemove != null ==>
      && status == Success
      && list.nodes == RemoveAt(old(list.nodes), old(IndexOf(list.nodes, toRemove)))
      && toRemove !in list.nodes
      && list.disposed == old(list.disposed) + [toRemove.data]
  {
    status := Uninitialized;
    if list == null || toRemove == null {
      status := LinkedListRemoveInvalidParameters;
      return;
    }
    Unlink(list, toRemove);

    ghost var released;
    status, released := DestroyNode(toRemove);
    list.disposed := list.disposed + released;
    if !TestFailure(status) {
      status := Success;
    }
  }

  /** The unlinking statements of `LINKED_LIST_remove`: the neighbours of
      `toRemove` (or the head and the tail, at an end) are pointed past it
      and the count drops by one. */
  method Unlink<D>(list: Context<D>, toRemove: Node<D>)
    requires list.Valid() && toRemove in list.nodes
    modifies list, list.nodes
    ensures list.Valid() && list.disposed == old(list.disposed)
    ensures list.nodes == RemoveAt(old(list.nodes), old(IndexOf(list.nodes, toRemove)))
    ensures toRemove !in list.nodes
  {
    ghost var s := list.nodes;
    ghost var k := IndexOf(s, toRemove);
    var next := toRemove.next;
    var prev := toRemove.prev;
    assert forall j :: 0 <= j < |s| && j != k + 1 ==> s[j] != next;
    assert forall j :: 0 <= j < |s| && j + 1 != k ==> s[j] != prev;

    if next == null {
      list.tail := prev;
    } else {
      next.prev := prev;
    }
    if prev == null {
      list.head := next;
    } else {
      prev.next := next;
    }
    list.nodeCount := list.nodeCount - 1;
    list.nodes := RemoveAt(s, k);
    SplicedOut(list, s, k, prev, next);
  }

  /** After `linked_list_add_node` has set the links of the new node `x`
      and pointed its neighbours (or the head and tail) at it, the list is
      well formed again, with `x` at index `k`. */
  twostate lemma SplicedIn<D>(list: Context<D>, new s: seq<Node<D>>, new k: nat, new x: Node<D>)
    requires old(list.Valid()) && old(list.nodes) == s && k <= |s|
    requires x !in s && x.freeingMethod.Some?
    requires list.nodes == InsertAt(s, k, x) && list.nodeCount == |s| + 1
    requires x.prev == (if k == 0 then null else s[k - 1])
    requires x.next == (if k == |s| then null else s[k])
    requires list.head == (if k == 0 then x else old(list.head))
    requires list.tail == (if k == |s| then x else old(list.tail))
    requires forall j {:trigger s[j].next} :: 0 <= j < |s| ==> s[j].next == if j == k - 1 then x else old(s[j].next)
    requires forall j {:trigger s[j].prev} :: 0 <= j < |s| ==> s[j].prev == if j == k then x else old(s[j].prev)
    ensures list.Valid()
  {
    var t := list.nodes;
    forall i | 0 <= i < |t| ensures t[i].next == if i == |t| - 1 then null else t[i + 1] {
      if i < k {
        assert t[i] == s[i];
      } else if k < i {
        assert t[i] == s[i - 1];
      }
    }
    forall i | 0 <= i < |t| ensures t[i].prev == if i == 0 then null else t[i - 1] {
      if i < k {
        assert t[i] == s[i];
      } else if k < i {
        assert t[i] == s[i - 1];
      }
    }
    forall a, b | 0 <= a < b < |t| ensures t[a] != t[b] {
      if b < k {
        assert t[a] == s[a] && t[b] == s[b];
      } else if b == k {
        assert t[a] == s[a];
      } else if k < a {
        assert t[a] == s[a - 1] && t[b] == s[b - 1];
      } else if a < k {
        assert t[a] == s[a] && t[b] == s[b - 1];
      }
    }
    DistinctIndexOf(t);
  }

  /** After `LINKED_LIST_remove` has pointed the neighbours of the node at
      index `k` (or the head and tail) past it, the list without that node
      is well formed again. */
  twostate lemma SplicedOut<D>(list: Context<D>, new s: seq<Node<D>>, new k: nat, new prev: Node?<D>, new next: Node?<D>)
    requires old(list.Valid()) && old(list.nodes) == s && k < |s|
    requires prev == (if k == 0 then null else s[k - 1])
    requires next == (if k == |s| - 1 then null else s[k + 1])
    requires list.nodes == RemoveAt(s, k) && list.nodeCount == |s| - 1
    requires list.head == (if k == 0 then next else old(list.head))
    requires list.tail == (if k == |s| - 1 then prev else old(list.tail))
    requires forall j {:trigger s[j].next} :: 0 <= j < |s| ==> s[j].next == if j == k - 1 then next else old(s[j].next)
    requires forall j {:trigger s[j].prev} :: 0 <= j < |s| ==> s[j].prev == if j == k + 1 then prev else old(s[j].prev)
    ensures list.Valid()
  {
    var t := list.nodes;
    forall i | 0 <= i < |t| ensures t[i].next == if i == |t| - 1 then null else t[i + 1] {
      if i < k {
        assert t[i] == s[i];
      } else {
        assert t[i] == s[i + 1];
      }
    }
    forall i | 0 <= i < |t| ensures t[i].prev == if i == 0 then null else t[i - 1] {
      if i < k {
        assert t[i] == s[i];
      } else {
        assert t[i] == s[i + 1];
      }
    }
    forall a, b | 0 <= a < b < |t| ensures t[a] != t[b] {
      if b < k {
        assert t[a] == s[a] && t[b] == s[b];
      } else if k <= a {
        assert t[a] == s[a + 1] && t[b] == s[b + 1];
      } else {
        assert t[a] == s[a] && t[b] == s[b + 1];
      }
    }
    DistinctIndexOf(t);
  }

  /** `linked_list_add_node`: the shared insertion step. The new node's
      neighbours come from the position and the reference alone (the tail or
      the head when there is no reference), and the node is spliced between
      them; an absent neighbour makes the new node the head or the tail. */
  method AddNode<D>(list: Context?<D>, reference: Node?<D>, position: NodePosition, data: Option<D>,
                    freeingMethod: Option<FreeingMethod<D>>, allocOk: bool)
    returns (status: Status)
    requires list != null ==> list.Valid()
    requires list != null && reference != null ==> reference in list.nodes
    modifies list, if list == null then [] else list.nodes
    ensures list == null || data.None? || freeingMethod.None? ==> status == LinkedListAddNodeInvalidParameters
    ensures list != null && data.Some? && freeingMethod.Some? && position != PositionPrev && position != PositionNext ==>
      status == LinkedListAddNodeInvalidNodePosition
    ensures list != null && data.Some? && freeingMethod.Some? && (position == PositionPrev || position == PositionNext) ==>
      status == if allocOk then Success else LinkedListCreateNodeAllocNodeFailure
    ensures list != null ==> list.Valid() && list.disposed == old(list.disposed)
    ensures list != null && status != Success ==> unchanged(list) && unchanged(list.nodes)
    ensures status == Success ==>
      && list != null && data.Some? && (position == PositionPrev || position == PositionNext)
      && var k := InsertionIndex(old(list.nodes), reference, position);
      && |list.nodes| == |old(list.nodes)| + 1
      && list.nodes == InsertAt(old(list.nodes), k, list.nodes[k])
      && fresh(list.nodes[k])
      && list.nodes[k].data == data.value && list.nodes[k].freeingMethod == freeingMethod
  {
    status := Uninitialized;
    var next: Node?<D> := null;
    var prev: Node?<D> := null;
    if list == null || data.None? || freeingMethod.None? {
      status := LinkedListAddNodeInvalidParameters;
      return;
    }

    match position {
      case PositionNext =>
        if reference == null {
          next := null;
          prev := list.tail;
        } else {
          next := reference.next;
          prev := reference;
        }
      case PositionPrev =>
        if reference == null {
          next := list.head;
          prev := null;
        } else {
          next := reference;
          prev := reference.prev;
        }
      case _ =>
        status := LinkedListAddNodeInvalidNodePosition;
        return;
    }

    ghost var k := InsertionIndex(list.nodes, reference, position);
    assert prev == if 0 < k then list.nodes[k - 1] else null;
    assert next == if k < |list.nodes| then list.nodes[k] else null;

    var newNode: Node?<D>;
    status, newNode := CreateNode(data, freeingMethod, true, allocOk);
    if !TestFailure(status) {
      newNode.next := next;
      newNode.prev := prev;
      Link(list, newNode, k);
      status := Success;
    }
    // When `CreateNode` fails nothing was allocated, so the cleanup path has
    // nothing to destroy.
  }

  /** The transfer of ownership in `linked_list_add_node`: `newNode`, whose
      links already name its neighbours at index `k`, becomes their
      neighbour in turn (or the head or the tail, where one is absent), and
      the count grows by one. */
  method Link<D>(list: Context<D>, newNode: Node<D>, ghost k: nat)
    requires list.Valid() && newNode !in list.nodes && newNode.freeingMethod.Some?
    requires k <= |list.nodes|
    requires newNode.prev == (if k == 0 then null else list.nodes[k - 1])
    requires newNode.next == (if k == |list.nodes| then null else list.nodes[k])
    modifies list, list.nodes
    ensures list.Valid() && list.disposed == old(list.disposed)
    ensures list.nodes == InsertAt(old(list.nodes), k, newNode)
  {
    ghost var s := list.nodes;
    var next := newNode.next;
    var prev := newNode.prev;
    assert forall j :: 0 <= j < |s| && j != k ==> s[j] != next;
    assert forall j :: 0 <= j < |s| && j + 1 != k ==> s[j] != prev;

    if next == null {
      list.tail := newNode;
    } else {
      next.prev := newNode;
    }
    if prev == null {
      list.head := newNode;
    } else {
      prev.next := newNode;
    }
    list.nodeCount := list.nodeCount + 1;
    list.nodes := InsertAt(s, k, newNode);
    SplicedIn(list, s, k, newNode);
  }

  /** `linked_list_create_node`: a fresh node with null links holding `data`
      and `freeingMethod`. */
  method CreateNode<D>(data: Option<D>, freeingMethod: Option<FreeingMethod<D>>, newNodePresent: bool, allocOk: bool)
    returns (status: Status, newNode: Node?<D>)
    ensures data.None? || freeingMethod.None? || !newNodePresent ==>
      status == LinkedListCreateNodeInvalidParameters && newNode == null
    ensures data.Some? && freeingMethod.Some? && newNodePresent && !allocOk ==>
      status == LinkedListCreateNodeAllocNodeFailure && newNode == null
    ensures data.Some? && freeingMethod.Some? && newNodePresent && allocOk ==>
      && status == Success && newNode != null && fresh(newNode)
      && newNode.data == data.value && newNode.freeingMethod == freeingMethod
      && newNode.prev == null && newNode.next == null
  {
    status := Uninitialized;
    newNode := null;
    if data.None? || freeingMethod.None? || !newNodePresent {
      status := LinkedListCreateNodeInvalidParameters;
      return;
    }
    if !allocOk {
      status := LinkedListCreateNodeAllocNodeFailure;
      return;
    }
    newNode := new Node(data.value, freeingMethod);
    status := Success;
  }

  /** `linked_list_destroy_node`: hands the node's data to its freeing method
      (`released` is what was handed over) and releases the node. A node
      without a freeing method keeps its data but is still released; either
      way the result for a non-null node is SUCCESS, since the status the
      callback reports reaches only the best-effort update of a status that
      is still UNINITIALIZED. */
  method DestroyNode<D>(toDestroy: Node?<D>) returns (status: Status, ghost released: seq<D>)
    ensures toDestroy == null ==> status == LinkedListDestroyNodeInvalidParameters && released == []
    ensures toDestroy != null ==> status == Success
    ensures toDestroy != null ==>
      released == if toDestroy.freeingMethod.Some? then [toDestroy.data] else []
  {
    var internalStatus := Uninitialized;
    status := Uninitialized;
    released := [];
    if toDestroy == null {
      status := LinkedListDestroyNodeInvalidParameters;
      return;
    }
    if toDestroy.freeingMethod.None? {
      internalStatus := LinkedListDestroyNodeInvalidFreeingMethod;
      status := BestEffortUpdate(internalStatus, status);
    } else {
      internalStatus := toDestroy.freeingMethod.value(toDestroy.data);
      released := [toDestroy.data];
      if TestFailure(internalStatus) {
        status := BestEffortUpdate(internalStatus, status);
      }
    }
    // Releasing the node's memory is not modelled.
    status := Success;
  }

  /** `linked_list_get_node`: the node at `position` relative to `reference`
      (the head or the tail when there is none) and its data, each written
      out only when asked for. The source dereferences the node it finds, so
      that node must exist. */
  method GetNode<D>(list: Context?<D>, reference: Node?<D>, position: NodePosition, nodePresent: bool, nodeDataPresent: bool)
    returns (status: Status, node: Option<Node<D>>, nodeData: Option<D>)
    requires list != null ==> list.Valid()
    requires list != null && reference != null ==> reference in list.nodes
    requires list != null ==> TargetExists(list.nodes, reference, position)
    ensures list == null ==> status == LinkedListGetNodeInvalidParameters && node == None && nodeData == None
    ensures list != null && position != PositionPrev && position != PositionNext ==>
      status == LinkedListGetNodeInvalidNodePosition && node == None && nodeData == None
    ensures list != null && (position == PositionPrev || position == PositionNext) ==>
      && status == Success
      && var t := list.nodes[TargetIndex(list.nodes, reference, position)];
      && node == (if nodePresent then Some(t) else None)
      && nodeData == (if nodeDataPresent then Some(t.data) else None)
  {
    status := Uninitialized;
    node, nodeData := None, None;
    var localNode: Node?<D> := null;
    if list == null {
      status := LinkedListGetNodeInvalidParameters;
      return;
    }
    ghost var s := list.nodes;
    assert reference != null ==> forall j :: 0 <= j < |s| && s[j] == reference ==> j == IndexOf(s, reference);

    match position {
      case PositionNext =>
        if reference == null {
          localNode := list.head;
        } else {
          localNode := reference.next;
        }
      case PositionPrev =>
        if reference == null {
          localNode := list.tail;
        } else {
          localNode := reference.prev;
        }
      case _ =>
        status := LinkedListGetNodeInvalidNodePosition;
        return;
    }
    assert localNode == s[TargetIndex(s, reference, position)];

    var localNodeData := localNode.data;
    if nodePresent {
      node := Some(localNode);
    }
    if nodeDataPresent {
      nodeData := Some(localNodeData);
    }
    status := Success;
  }
}
