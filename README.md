# CoronaChat linked list and status helpers in Dafny

This project models the generic doubly linked list of CoronaChat
(`src/utils/linked_list/`) and the status helpers it relies on
(`src/coronachat_status.h`), and proves what the C code does.

- `status.dfy`, module `CoronachatStatus`: the `coronachat_status` enumeration
  with its integer values, `CORONACHAR_TEST_FAILURE` as `TestFailure` and
  `BEST_EFFORT_UPDATE_STATUS` as the function `BestEffortUpdate` from (new,
  old) to the status the macro leaves behind. `UpdateAll` applies the macro to
  a run of statuses, to state what a run of best-effort updates keeps.
- `linked_list_internals.dfy`, module `LinkedListInternals`: the node
  (`LINKED_LIST_node`) and context (`LINKED_LIST_context`) as classes, and the
  node positions. The context carries a ghost sequence `nodes` (the list from
  head to tail) and a ghost log `disposed` (the data handed to freeing methods,
  in order). `Context.Valid()` is the well-formedness of the list: `node_count`
  is the length of `nodes`, `head` and `tail` are its ends, every `prev` and
  `next` link names the neighbour in `nodes` (null at the ends), no node
  occurs twice, and every node has a freeing method. The last conjunct holds
  because `linked_list_create_node` rejects a NULL freeing method
  (`linked_list.c:453`), and it is why `Remove` always disposes of the data
  of the node it removes. This module also holds the functions on node
  sequences that specify the operations: where an insertion goes and which node a lookup finds.
- `linked_list.dfy`, module `LinkedList`: every function of `linked_list.c`
  as an imperative method over those classes. The NULL-argument error paths
  are part of the model, because the context and nodes are passed as nullable
  references. A C out-parameter `T **out` becomes a flag saying whether the
  pointer is non-null, plus a result that stays `None` where the C function
  leaves `*out` unwritten. The outcome of `calloc` is the input `allocOk`.
- `driver.dfy`, module `Driver`: the call sequence of `src/main.c`, proved to
  exit with `EXIT_SUCCESS`, to leave the nodes "1" and "2" for the count of 2,
  and to dispose of the payloads in the order "1.5", "3", "0", "2", "1".

Behaviour of the code that the model reproduces as written:

- `BEST_EFFORT_UPDATE_STATUS` overwrites a status only when it already holds
  an error. So the latest error wins, and a status that is still UNINITIALIZED
  or SUCCESS never records one (`UpdateAllKeepsUnset`, `UpdateAllLatestErrorWins`).
  The loop of `LINKED_LIST_free` keeps its status UNINITIALIZED throughout (a
  loop invariant of `LinkedList.Free`). `LINKED_LIST_free` and
  `linked_list_destroy_node` then assign SUCCESS unconditionally. As a result,
  `free` and `remove` report SUCCESS for any non-null arguments, whatever the
  freeing methods return.
- `linked_list_get_node` dereferences the node it finds (`linked_list.c:591`)
  without a NULL check, so in the model the target node must exist.
- `get_next` with no reference returns the head, and `get_prev` with no
  reference returns the tail.
- `LINKED_LIST_get_node_count` reports bad arguments with the get_prev error
  code (`linked_list.c:263`). The model keeps that code.

## Model

| member | source | states |
|---|---|---|
| CoronachatStatus.Value | src/coronachat_status.h:11-42 | UNINITIALIZED is exactly the value -1 and SUCCESS exactly 0; every other code lies in [1000, 1016) |
| CoronachatStatus.LinkedListCodesConsecutive | src/coronachat_status.h:16-41 | the i-th linked-list code in declaration order has value 1000 + i, and no two enumerators share a value |
| CoronachatStatus.UninitializedIsFailure | src/coronachat_status.h:44 | the failure test holds for exactly the statuses other than SUCCESS, so UNINITIALIZED counts as a failure |
| CoronachatStatus.BestEffortUpdateCases | src/coronachat_status.h:46-51 | the update keeps UNINITIALIZED and SUCCESS, and replaces any error status with the new status |
| CoronachatStatus.UpdateAllKeepsUnset | src/coronachat_status.h:46-51 | starting from UNINITIALIZED or SUCCESS, any run of updates leaves the status unchanged: no first error is recorded |
| CoronachatStatus.UpdateAllLatestErrorWins | src/coronachat_status.h:46-51 | starting from an error, a run of error updates ends with the last of them |
| LinkedListInternals.Node.constructor | src/utils/linked_list/linked_list_internals.h:18-30 | a zero-filled node has null `prev` and `next` and holds the given data and freeing method |
| LinkedListInternals.Context.constructor | src/utils/linked_list/linked_list_internals.h:33-42 | a zero-filled context is a well-formed empty list: null head and tail, count 0, nothing disposed |
| LinkedListInternals.InsertionIndex | src/utils/linked_list/linked_list.c:366-388 | the new node goes right after the reference (or at the end) for NEXT, and right before it (or at the start) for PREV |
| LinkedListInternals.TargetIndex | src/utils/linked_list/linked_list.c:563-581 | the node found is the head or the reference's successor for NEXT, and the tail or its predecessor for PREV |
| LinkedListInternals.InsertRemoveInverse | src/utils/linked_list/linked_list.c:304-322 | removing the node just inserted at index k restores the sequence, and reinserting a removed node at its index restores it too |
| LinkedListInternals.WalksMatchCount | src/utils/linked_list/linked_list_internals.h:40-41 | in a well-formed list, walking `next` from the head visits exactly the nodes in order and stops after `node_count` of them; walking `prev` from the tail visits them in reverse |
| LinkedList.Init | src/utils/linked_list/linked_list.c:17-61 | a NULL out-pointer gives INIT_INVALID_PARAMETERS and an allocation failure gives ALLOC_LIST_CONTEXT_FAILURE, both with no list; otherwise SUCCESS and a fresh, empty, well-formed list |
| LinkedList.Free | src/utils/linked_list/linked_list.c:64-98 | a NULL list gives FREE_INVALID_PARAMETERS; otherwise the list ends empty and well formed, every payload is disposed of exactly once from tail to head, the status stays UNINITIALIZED while the loop runs (no removal error is recorded), and the result is SUCCESS |
| LinkedList.DrainStep | src/utils/linked_list/linked_list.c:80-88 | removing the tail of the remaining prefix keeps the loop invariant: what is left is a shorter prefix, and the log holds the removed payloads from tail to head |
| LinkedList.Append | src/utils/linked_list/linked_list.c:101-132 | NULL list, data or freeing method gives APPEND_INVALID_PARAMETERS; an allocation failure leaves the list untouched; on SUCCESS a fresh node holding the data sits right after the reference (or becomes the tail), every other node keeps its order, and the count grows by one |
| LinkedList.Prepend | src/utils/linked_list/linked_list.c:135-166 | the mirror image of Append: the fresh node sits right before the reference, or becomes the head |
| LinkedList.GetNext | src/utils/linked_list/linked_list.c:169-208 | a NULL list gives GET_NEXT_INVALID_PARAMETERS; otherwise SUCCESS, with the head (no reference) or the reference's successor and its data, each written only when asked for |
| LinkedList.GetPrev | src/utils/linked_list/linked_list.c:211-250 | a NULL list gives GET_PREV_INVALID_PARAMETERS; otherwise SUCCESS, with the tail (no reference) or the reference's predecessor and its data, each written only when asked for |
| LinkedList.GetNodeCount | src/utils/linked_list/linked_list.c:253-282 | a NULL list or out-pointer gives the GET_PREV_INVALID_PARAMETERS code; otherwise SUCCESS and the number of nodes in the list |
| LinkedList.Remove | src/utils/linked_list/linked_list.c:285-336 | a NULL list or node gives REMOVE_INVALID_PARAMETERS and changes nothing; otherwise exactly that node leaves the list, the others keep their order, its data is disposed of once, and the result is SUCCESS |
| LinkedList.Unlink | src/utils/linked_list/linked_list.c:304-322 | pointing the neighbours (or the head and tail) past a node and decrementing the count removes exactly that node and keeps the list well formed |
| LinkedList.SplicedOut | src/utils/linked_list/linked_list.c:308-322 | after the unlinking writes, the list without the node at index k is well formed |
| LinkedList.AddNode | src/utils/linked_list/linked_list.c:339-439 | NULL list, data or freeing method gives ADD_NODE_INVALID_PARAMETERS; a position other than PREV/NEXT gives INVALID_NODE_POSITION; both leave the list untouched, as does an allocation failure; on SUCCESS a fresh node is inserted at the insertion index |
| LinkedList.Link | src/utils/linked_list/linked_list.c:409-425 | pointing the new node's neighbours (or the head and tail) at it and incrementing the count inserts exactly that node at its index and keeps the list well formed |
| LinkedList.SplicedIn | src/utils/linked_list/linked_list.c:405-425 | after the linking writes, the list with the new node at index k is well formed |
| LinkedList.CreateNode | src/utils/linked_list/linked_list.c:442-493 | NULL data, freeing method or out-pointer gives CREATE_NODE_INVALID_PARAMETERS and an allocation failure ALLOC_NODE_FAILURE, both with no node; otherwise a fresh node with null links holding the data and freeing method |
| LinkedList.DestroyNode | src/utils/linked_list/linked_list.c:496-536 | a NULL node gives DESTROY_NODE_INVALID_PARAMETERS; otherwise SUCCESS whatever the callback returns, with the data handed over once when the node has a freeing method and not at all otherwise |
| LinkedList.GetNode | src/utils/linked_list/linked_list.c:539-606 | a NULL list gives GET_NODE_INVALID_PARAMETERS and a position other than PREV/NEXT gives INVALID_NODE_POSITION, both writing nothing; otherwise SUCCESS with the node at the target index and its data, each written only when asked for |
| Driver.RunDemo | src/main.c:15-135 | the program exits with EXIT_SUCCESS, the count is 2, and the payloads are disposed of as "1.5", "3", "0", "2", "1" |
| Driver.AppendThree | src/main.c:30-46 | three appends with no reference give the list "1", "2", "3" |
| Driver.InsertAroundFirst | src/main.c:48-64 | prepending "0" and appending "1.5" around the head give "0", "1", "1.5", "2", "3" |
| Driver.RemoveThirdFromTail | src/main.c:66-88 | three steps back from the tail reach "1.5"; removing it disposes of "1.5" and leaves "0", "1", "2", "3" |
| Driver.RemoveEnds | src/main.c:90-112 | removing the tail and then the head disposes of "3" then "0" and leaves "1", "2" |
| Driver.CountAndFree | src/main.c:114-124 | the count of the two remaining nodes is 2, and freeing the list disposes of "2" then "1" and leaves it empty |

## Left out

- Memory release: `free` of nodes and of the context is not modelled. A
  removed node simply leaves `nodes`, and a freed context is the drained
  context.
- Freeing methods are arbitrary functions from the data to a status. Their
  effect is recorded only as the ghost log `disposed`. Other side effects of a
  callback are not modelled.
- `node_count` is a `size_t`. The model uses an unbounded `nat` because the
  count never exceeds the number of allocated nodes, so wrap-around cannot
  occur in a well-formed list.
- Allocation (`calloc`) is the boolean input `allocOk`, not a nondeterministic
  outcome. `strdup` in `src/main.c` is taken to succeed.
- NULL data is `None` of an `Option`. The payload is a type parameter, so the
  model does not capture the aliasing of payload pointers.
- Undefined behaviour is excluded by preconditions, not modelled. These cover
  `get_node` (and so `get_next`/`get_prev`) when the target node does not
  exist. They also cover `remove`, `append`, `prepend`, `add_node`,
  `get_next`, `get_prev` and `get_node` when given a reference node that is not
  in the list. The C code would then read or rewrite `reference->next` and
  `reference->prev` of a node outside the list.
- Driver.RunDemo: the `goto l_cleanup` after each call in `src/main.c` is not
  modelled. Every `calloc` in `main` (for the context and for each node) is
  taken to succeed: `allocOk` is true in every call to `Init`, `Append` and
  `Prepend`. Under that assumption each call is proved to return SUCCESS, so
  those branches are never taken.
- `DEBUG_PRINT` logging and the `common/common.h` macros are left out.
- The network utilities (`src/utils/network_utils/`) are not part of this
  model, and neither is the ncurses user interface (`src/ui/`).
