/** The status codes returned by every operation, and the two helpers the
    operations use to test and combine them. */
module CoronachatStatus {

  /** One constructor per enumerator of `coronachat_status`, in declaration order. */
  datatype Status =
    | Uninitialized
    | Success
    | LinkedListInitInvalidParameters
    | LinkedListInitAllocListContextFailure
    | LinkedListFreeInvalidParameters
    | LinkedListAppendInvalidParameters
    | LinkedListPrependInvalidParameters
    | LinkedListGetNextInvalidParameters
    | LinkedListGetPrevInvalidParameters
    | LinkedListRemoveInvalidParameters
    | LinkedListAddNodeInvalidParameters
    | LinkedListAddNodeInvalidNodePosition
    | LinkedListCreateNodeInvalidParameters
    | LinkedListCreateNodeAllocNodeFailure
    | LinkedListDestroyNodeInvalidParameters
    | LinkedListDestroyNodeInvalidFreeingMethod
    | LinkedListGetNodeInvalidParameters
    | LinkedListGetNodeInvalidNodePosition

  /** The linked-list codes in the order the enumeration declares them. */
  const LinkedListCodes: seq<Status> := [
    LinkedListInitInvalidParameters,
    LinkedListInitAllocListContextFailure,
    LinkedListFreeInvalidParameters,
    LinkedListAppendInvalidParameters,
    LinkedListPrependInvalidParameters,
    LinkedListGetNextInvalidParameters,
    LinkedListGetPrevInvalidParameters,
    LinkedListRemoveInvalidParameters,
    LinkedListAddNodeInvalidParameters,
    LinkedListAddNodeInvalidNodePosition,
    LinkedListCreateNodeInvalidParameters,
    LinkedListCreateNodeAllocNodeFailure,
    LinkedListDestroyNodeInvalidParameters,
    LinkedListDestroyNodeInvalidFreeingMethod,
    LinkedListGetNodeInvalidParameters,
    LinkedListGetNodeInvalidNodePosition
  ]

  /** The integer value of each enumerator: UNINITIALIZED is -1, SUCCESS is 0,
      and the linked-list codes count up from 1000 with no gaps. */
  function Value(s: Status): (v: int)
    ensures v == -1 <==> s == Uninitialized
    ensures v == 0 <==> s == Success
    ensures s != Uninitialized && s != Success ==> 1000 <= v < 1000 + |LinkedListCodes|
  {
    match s
    case Uninitialized => -1
    case Success => 0
    case LinkedListInitInvalidParameters => 1000
    case LinkedListInitAllocListContextFailure => 1001
    case LinkedListFreeInvalidParameters => 1002
    case LinkedListAppendInvalidParameters => 1003
    case LinkedListPrependInvalidParameters => 1004
    case LinkedListGetNextInvalidParameters => 1005
    case LinkedListGetPrevInvalidParameters => 1006
    case LinkedListRemoveInvalidParameters => 1007
    case LinkedListAddNodeInvalidParameters => 1008
    case LinkedListAddNodeInvalidNodePosition => 1009
    case LinkedListCreateNodeInvalidParameters => 1010
    case LinkedListCreateNodeAllocNodeFailure => 1011
    case LinkedListDestroyNodeInvalidParameters => 1012
    case LinkedListDestroyNodeInvalidFreeingMethod => 1013
    case LinkedListGetNodeInvalidParameters => 1014
    case LinkedListGetNodeInvalidNodePosition => 1015
  }

  /** The linked-list codes are consecutive: the i-th declared one is 1000 + i,
      so distinct enumerators have distinct values. */
  lemma LinkedListCodesConsecutive()
    ensures forall i :: 0 <= i < |LinkedListCodes| ==> Value(LinkedListCodes[i]) == 1000 + i
    ensures forall a: Status, b: Status :: Value(a) == Value(b) ==> a == b
  {
  }

  /** `CORONACHAR_TEST_FAILURE`: anything but SUCCESS is a failure. */
  predicate TestFailure(s: Status) {
    Success != s
  }

  /** `BEST_EFFORT_UPDATE_STATUS(newStatus, status)`: the value `status` holds
      after the macro. It is overwritten only when it is neither UNINITIALIZED
      nor SUCCESS, that is, only when it already holds an error. */
  function BestEffortUpdate(newStatus: Status, status: Status): Status {
    if Uninitialized != status && Success != status then newStatus else status
  }

  /** UNINITIALIZED is not SUCCESS, so it tests as a failure. */
  lemma UninitializedIsFailure()
    ensures TestFailure(Uninitialized)
    ensures forall s :: !TestFailure(s) <==> s == Success
  {
  }

  /** The three cases of the update rule: UNINITIALIZED and SUCCESS are never
      replaced, and an error status is always replaced by the new one. */
  lemma BestEffortUpdateCases(newStatus: Status, status: Status)
    ensures status == Uninitialized ==> BestEffortUpdate(newStatus, status) == Uninitialized
    ensures status == Success ==> BestEffortUpdate(newStatus, status) == Success
    ensures status != Uninitialized && status != Success ==> BestEffortUpdate(newStatus, status) == newStatus
  {
  }

  /** The status after applying the update macro once for each of `updates`, in order. */
  function UpdateAll(status: Status, updates: seq<Status>): Status
    decreases |updates|
  {
    if updates == [] then status
    else UpdateAll(BestEffortUpdate(updates[0], status), updates[1..])
  }

  /** A status that starts out UNINITIALIZED or SUCCESS keeps that value
      however many updates follow: the macro never records a first error. */
  lemma {:induction false} UpdateAllKeepsUnset(status: Status, updates: seq<Status>)
    requires status == Uninitialized || status == Success
    ensures UpdateAll(status, updates) == status
    decreases |updates|
  {
    if updates != [] {
      UpdateAllKeepsUnset(BestEffortUpdate(updates[0], status), updates[1..]);
    }
  }

  /** A status that already holds an error ends with the LAST of a run of
      errors: the latest error wins, not the first. */
  lemma {:induction false} UpdateAllLatestErrorWins(status: Status, updates: seq<Status>)
    requires status != Uninitialized && status != Success
    requires forall i :: 0 <= i < |updates| ==> updates[i] != Uninitialized && updates[i] != Success
    ensures UpdateAll(status, updates) == if updates == [] then status else updates[|updates| - 1]
    decreases |updates|
  {
    if updates != [] {
      UpdateAllLatestErrorWins(updates[0], updates[1..]);
    }
  }
}
