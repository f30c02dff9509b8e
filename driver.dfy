/** The program's entry point, which exercises the list: it builds a list
    of strings, reads it from both ends, removes nodes from the middle and
    both ends, counts what is left and frees the list. */
module Driver {
  import opened CoronachatStatus
  import opened LinkedListInternals
  import opened LinkedList

  const ExitSuccess := 0
  const ExitFailure := 1

  /** `heapfree`: the freeing method of every node the entry point creates.
      Releasing the string is not modelled, so all that is left is its result. */
  function HeapFree(s: string): Status {
    Success
  }

  /** `main`, with every allocation succeeding: each call returns SUCCESS,
      so the program exits with EXIT_SUCCESS; two nodes are left for the
      count, and the payloads are disposed of in the order the removals and
      the final free release them. Each `assert !TestFailure(status)` here
      and in the phases below stands for a check in `main` whose
      `goto l_cleanup` is not taken. */
  method RunDemo() returns (mainReturn: int, cnt: nat, ghost disposed: seq<string>)
    ensures mainReturn == ExitSuccess
    ensures cnt == 2
    ensures disposed == ["1.5", "3", "0", "2", "1"]
  {
    var status, list := Init<string>(true, true);
    assert !TestFailure(status);
    ghost var n1, n2, n3;
    status, n1, n2, n3 := AppendThree(list);
    ghost var n0, n15;
    status, n0, n15 := InsertAroundFirst(list, n1, n2, n3);
    status := RemoveThirdFromTail(list, n0, n1, n15, n2, n3);
    status := RemoveEnds(list, n0, n1, n2, n3);
    status, cnt := CountAndFree(list, n1, n2);
    disposed := list.disposed;
    mainReturn := if TestFailure(status) then ExitFailure else ExitSuccess;
  }

  /** `main` (src/main.c:114-124): the two remaining nodes are counted and
      the list is freed, disposing of "2" and then "1". */
  method CountAndFree(list: Context<string>, ghost n1: Node<string>, ghost n2: Node<string>)
    returns (status: Status, cnt: nat)
    requires list.Valid() && list.nodes == [n1, n2] && n1.data == "1" && n2.data == "2"
    modifies list, list.nodes
    ensures status == Success && cnt == 2
    ensures list.Valid() && list.nodes == [] && list.disposed == old(list.disposed) + ["2", "1"]
  {
    var count;
    status, count := GetNodeCount(list, true);
    assert !TestFailure(status);
    cnt := count.value;
    status := Free(list);
    assert Reverse(Payloads([n1, n2])) == ["2", "1"];
  }

  /** `main` (src/main.c:30-46): "1", "2" and "3" appended at the tail in turn. */
  method AppendThree(list: Context<string>) returns (status: Status, ghost n1: Node<string>, ghost n2: Node<string>, ghost n3: Node<string>)
    requires list.Valid() && list.nodes == []
    modifies list
    ensures status == Success && list.Valid() && list.disposed == old(list.disposed)
    ensures list.nodes == [n1, n2, n3] && fresh(n1) && fresh(n2) && fresh(n3)
    ensures n1.data == "1" && n2.data == "2" && n3.data == "3"
  {
    var heapFree: Option<FreeingMethod<string>> := Some(HeapFree);
    status := Append(list, null, Some("1"), heapFree, true);
    assert !TestFailure(status);
    n1 := list.nodes[0];
    assert list.nodes == [n1];
    status := Append(list, null, Some("2"), heapFree, true);
    assert !TestFailure(status);
    n2 := list.nodes[1];
    assert list.nodes == [n1, n2];
    status := Append(list, null, Some("3"), heapFree, true);
    n3 := list.nodes[2];
    assert list.nodes == [n1, n2, n3];
  }

  /** `main` (src/main.c:48-64): the head is read, "0" is prepended before it and
      "1.5" appended after it. */
  method InsertAroundFirst(list: Context<string>, ghost n1: Node<string>, ghost n2: Node<string>, ghost n3: Node<string>)
    returns (status: Status, ghost n0: Node<string>, ghost n15: Node<string>)
    requires list.Valid() && list.nodes == [n1, n2, n3]
    modifies list, list.nodes
    ensures status == Success && list.Valid() && list.disposed == old(list.disposed)
    ensures list.nodes == [n0, n1, n15, n2, n3] && fresh(n0) && fresh(n15)
    ensures n0.data == "0" && n15.data == "1.5"
  {
    var heapFree: Option<FreeingMethod<string>> := Some(HeapFree);
    var nxt, unused;
    status, nxt, unused := GetNext(list, null, true, false);
    assert !TestFailure(status);
    status := Prepend(list, nxt.value, Some("0"), heapFree, true);
    assert !TestFailure(status);
    n0 := list.nodes[0];
    assert list.nodes == [n0, n1, n2, n3];
    status := Append(list, nxt.value, Some("1.5"), heapFree, true);
    n15 := list.nodes[2];
    assert list.nodes == [n0, n1, n15, n2, n3];
  }

  /** `main` (src/main.c:66-88): three steps back from the tail reach "1.5", which
      is removed. */
  method RemoveThirdFromTail(list: Context<string>, ghost n0: Node<string>, ghost n1: Node<string>,
                             ghost n15: Node<string>, ghost n2: Node<string>, ghost n3: Node<string>)
    returns (status: Status)
    requires list.Valid() && list.nodes == [n0, n1, n15, n2, n3]
    modifies list, list.nodes
    ensures status == Success && list.Valid()
    ensures list.nodes == [n0, n1, n2, n3] && list.disposed == old(list.disposed) + [n15.data]
  {
    var prv, unused;
    status, prv, unused := GetPrev(list, null, true, false);
    assert !TestFailure(status);
    status, prv, unused := GetPrev(list, prv.value, true, false);
    assert !TestFailure(status);
    status, prv, unused := GetPrev(list, prv.value, true, false);
    assert !TestFailure(status) && prv.value == n15;
    status := Remove(list, prv.value);
    assert list.nodes == [n0, n1, n2, n3];
  }

  /** `main` (src/main.c:90-112): the tail is read and removed, then the head. */
  method RemoveEnds(list: Context<string>, ghost n0: Node<string>, ghost n1: Node<string>,
                    ghost n2: Node<string>, ghost n3: Node<string>)
    returns (status: Status)
    requires list.Valid() && list.nodes == [n0, n1, n2, n3]
    modifies list, list.nodes
    ensures status == Success && list.Valid()
    ensures list.nodes == [n1, n2] && list.disposed == old(list.disposed) + [n3.data, n0.data]
  {
    var prv, nxt, unused;
    status, prv, unused := GetPrev(list, null, true, false);
    assert !TestFailure(status);
    status := Remove(list, prv.value);
    assert !TestFailure(status);
    assert list.nodes == [n0, n1, n2];
    status, nxt, unused := GetNext(list, null, true, false);
    assert !TestFailure(status);
    status := Remove(list, nxt.value);
    assert list.nodes == [n1, n2];
  }
}
