/** The node and context layouts of the doubly linked list, the node
    positions, and the functions on node sequences that specify the list
    operations. */
module LinkedListInternals {
  import opened CoronachatStatus

  datatype Option<T> = None | Some(value: T)

  /** The callback a node uses to dispose of its data. */
  type FreeingMethod<!D> = D -> Status

  /** `linked_list_node_position`; only `PositionPrev` and `PositionNext`
      name a place in the list. */
  datatype NodePosition = PositionInvalid | PositionPrev | PositionNext | PositionCount

  /** `LINKED_LIST_node`: the two links, the data held and its freeing method.
      The data and the freeing method are set once, when the node is created. */
  class Node<D> {
    var prev: Node?<D>
    var next: Node?<D>
    const data: D
    const freeingMethod: Option<FreeingMethod<D>>

    /** A zero-filled node (null links) holding `data` and `freeingMethod`. */
    constructor (data: D, freeingMethod: Option<FreeingMethod<D>>)
      ensures this.data == data && this.freeingMethod == freeingMethod
      ensures prev == null && next == null
    {
      this.data := data;
      this.freeingMethod := freeingMethod;
      prev, next := null, null;
    }
  }

  /** `LINKED_LIST_context`: head, tail and the number of nodes in the list.
      `nodes` is the list from head to tail and `disposed` records, in order,
      the data every removed node handed to its freeing method. */
  class Context<D> {
    var head: Node?<D>
    var tail: Node?<D>
    var nodeCount: nat
    ghost var nodes: seq<Node<D>>
    ghost var disposed: seq<D>

    /** The well-formedness of the list: the maintained count is the length
        of `nodes`, head and tail are its ends, each node's `prev` and `next`
        are its neighbours in `nodes` (null at either end), no node occurs
        twice, and every node can free its data. */
    ghost predicate Valid()
      reads this, nodes
    {
      && nodeCount == |nodes|
      && head == (if nodes == [] then null else nodes[0])
      && tail == (if nodes == [] then null else nodes[|nodes| - 1])
      && (forall i {:trigger nodes[i].prev} :: 0 <= i < |nodes| ==> nodes[i].prev == if i == 0 then null else nodes[i - 1])
      && (forall i {:trigger nodes[i].next} :: 0 <= i < |nodes| ==> nodes[i].next == if i == |nodes| - 1 then null else nodes[i + 1])
      && (forall i :: 0 <= i < |nodes| ==> IndexOf(nodes, nodes[i]) == i)
      && (forall i :: 0 <= i < |nodes| ==> nodes[i].freeingMethod.Some?)
    }

    /** An empty, zero-filled context. */
    constructor ()
      ensures Valid() && nodes == [] && disposed == []
      ensures head == null && tail == null && nodeCount == 0
    {
      head, tail, nodeCount := null, null, 0;
      nodes, disposed := [], [];
    }
  }

  /** The data held by each of `ns`, in the same order. */
  function Payloads<D>(ns: seq<Node<D>>): (ds: seq<D>)
    ensures |ds| == |ns|
    ensures forall i :: 0 <= i < |ns| ==> ds[i] == ns[i].data
  {
    if ns == [] then [] else [ns[0].data] + Payloads(ns[1..])
  }

  /** `s` read from its end to its start. */
  function Reverse<T>(s: seq<T>): (r: seq<T>)
    ensures |r| == |s|
    ensures forall i :: 0 <= i < |s| ==> r[i] == s[|s| - 1 - i]
  {
    if s == [] then [] else Reverse(s[1..]) + [s[0]]
  }

  /** The position of `n` in `ns`. */
  function IndexOf<T(==)>(ns: seq<T>, n: T): (k: nat)
    requires n in ns
    ensures k < |ns| && ns[k] == n
  {
    if ns[0] == n then 0 else 1 + IndexOf(ns[1..], n)
  }

  /** In a sequence without repetitions, `IndexOf` finds each element at its own index. */
  lemma DistinctIndexOf<T>(ns: seq<T>)
    requires forall a, b :: 0 <= a < b < |ns| ==> ns[a] != ns[b]
    ensures forall i :: 0 <= i < |ns| ==> IndexOf(ns, ns[i]) == i
  {
  }

  /** `s` with `x` placed at index `k`; all other elements keep their order. */
  function InsertAt<T>(s: seq<T>, k: nat, x: T): (r: seq<T>)
    requires k <= |s|
    ensures |r| == |s| + 1
    ensures forall i {:trigger r[i]} :: 0 <= i < |r| ==> r[i] == if i < k then s[i] else if i == k then x else s[i - 1]
  {
    s[..k] + [x] + s[k..]
  }

  /** `s` without its element at index `k`; all other elements keep their order. */
  function RemoveAt<T>(s: seq<T>, k: nat): (r: seq<T>)
    requires k < |s|
    ensures |r| == |s| - 1
    ensures forall i {:trigger r[i]} :: 0 <= i < |r| ==> r[i] == if i < k then s[i] else s[i + 1]
  {
    s[..k] + s[k + 1..]
  }

  /** Removing what was inserted gives back the original sequence, and
      inserting what was removed, where it was, gives back the original too. */
  lemma InsertRemoveInverse<T>(s: seq<T>, k: nat, x: T)
    requires k <= |s|
    ensures RemoveAt(InsertAt(s, k, x), k) == s
    ensures k < |s| ==> InsertAt(RemoveAt(s, k), k, s[k]) == s
  {
  }

  /** Where `linked_list_add_node` places the new node: after `reference` (or
      at the end when there is none) for `PositionNext`, before it (or at the
      start) for `PositionPrev`. */
  function InsertionIndex<D>(ns: seq<Node<D>>, reference: Node?<D>, position: NodePosition): (k: nat)
    requires reference != null ==> reference in ns
    requires position == PositionPrev || position == PositionNext
    ensures k <= |ns|
    ensures position == PositionNext && reference == null ==> k == |ns|
    ensures position == PositionPrev && reference == null ==> k == 0
    ensures position == PositionNext && reference != null ==> 0 < k && ns[k - 1] == reference
    ensures position == PositionPrev && reference != null ==> k < |ns| && ns[k] == reference
  {
    match position
    case PositionNext => if reference == null then |ns| else IndexOf(ns, reference) + 1
    case PositionPrev => if reference == null then 0 else IndexOf(ns, reference)
  }

  /** Whether `linked_list_get_node` finds a node to read: the list is not
      empty when there is no reference, and the reference is not the last
      (for `PositionNext`) or the first (for `PositionPrev`) node otherwise. */
  ghost predicate TargetExists<D>(ns: seq<Node<D>>, reference: Node?<D>, position: NodePosition)
    requires reference != null ==> reference in ns
  {
    match position
    case PositionNext => if reference == null then ns != [] else IndexOf(ns, reference) + 1 < |ns|
    case PositionPrev => if reference == null then ns != [] else 0 < IndexOf(ns, reference)
    case _ => true
  }

  /** The index of the node `linked_list_get_node` returns: the head or the
      node after `reference` for `PositionNext`, the tail or the node before
      it for `PositionPrev`. */
  function TargetIndex<D>(ns: seq<Node<D>>, reference: Node?<D>, position: NodePosition): (k: nat)
    requires reference != null ==> reference in ns
    requires position == PositionPrev || position == PositionNext
    requires TargetExists(ns, reference, position)
    ensures k < |ns|
    ensures position == PositionNext && reference == null ==> k == 0
    ensures position == PositionPrev && reference == null ==> k == |ns| - 1
    ensures position == PositionNext && reference != null ==> 0 < k && ns[k - 1] == reference
    ensures position == PositionPrev && reference != null ==> k + 1 < |ns| && ns[k + 1] == reference
  {
    match position
    case PositionNext => if reference == null then 0 else IndexOf(ns, reference) + 1
    case PositionPrev => if reference == null then |ns| - 1 else IndexOf(ns, reference) - 1
  }

  /** The nodes met by following `next` links from `n`, at most `fuel` of them. */
  ghost function WalkNext<D>(n: Node?<D>, fuel: nat): seq<Node<D>>
    reads *
    decreases fuel
  {
    if n == null || fuel == 0 then [] else [n] + WalkNext(n.next, fuel - 1)
  }

  /** The nodes met by following `prev` links from `n`, at most `fuel` of them. */
  ghost function WalkPrev<D>(n: Node?<D>, fuel: nat): seq<Node<D>>
    reads *
    decreases fuel
  {
    if n == null || fuel == 0 then [] else [n] + WalkPrev(n.prev, fuel - 1)
  }

  /** Following `next` links from the node at index `i` of a valid list
      visits exactly `nodes[i..]` and then stops. */
  lemma {:induction false} WalkNextSuffix<D>(list: Context<D>, i: nat, fuel: nat)
    requires list.Valid()
    requires i <= |list.nodes| && fuel >= |list.nodes| - i
    ensures WalkNext(if i < |list.nodes| then list.nodes[i] else null, fuel) == list.nodes[i..]
    decreases |list.nodes| - i
  {
    if i < |list.nodes| {
      WalkNextSuffix(list, i + 1, fuel - 1);
      assert list.nodes[i].next == if i + 1 < |list.nodes| then list.nodes[i + 1] else null;
      assert list.nodes[i..] == [list.nodes[i]] + list.nodes[i + 1..];
    }
  }

  /** Following `prev` links from the node at index `i - 1` of a valid list
      visits exactly `nodes[..i]` backwards and then stops. */
  lemma {:induction false} WalkPrevPrefix<D>(list: Context<D>, i: nat, fuel: nat)
    requires list.Valid()
    requires i <= |list.nodes| && fuel >= i
    ensures WalkPrev(if 0 < i then list.nodes[i - 1] else null, fuel) == Reverse(list.nodes[..i])
    decreases i
  {
    if 0 < i {
      WalkPrevPrefix(list, i - 1, fuel - 1);
      assert list.nodes[..i] == list.nodes[..i - 1] + [list.nodes[i - 1]];
      ReverseSnoc(list.nodes[..i - 1], list.nodes[i - 1]);
    }
  }

  /** Reading `s + [x]` backwards starts with `x`. */
  lemma ReverseSnoc<T>(s: seq<T>, x: T)
    ensures Reverse(s + [x]) == [x] + Reverse(s)
  {
  }

  /** The maintained count agrees with both traversals: walking `next` links
      from the head visits the list's nodes in order and stops after
      `nodeCount` of them, and walking `prev` links from the tail visits the
      same nodes in reverse. */
  lemma WalksMatchCount<D>(list: Context<D>)
    requires list.Valid()
    ensures WalkNext(list.head, list.nodeCount + 1) == list.nodes
    ensures WalkPrev(list.tail, list.nodeCount + 1) == Reverse(list.nodes)
    ensures |WalkNext(list.head, list.nodeCount + 1)| == list.nodeCount
  {
    WalkNextSuffix(list, 0, list.nodeCount + 1);
    WalkPrevPrefix(list, |list.nodes|, list.nodeCount + 1);
    assert list.nodes[..|list.nodes|] == list.nodes;
  }
}
