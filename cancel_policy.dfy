/**
 * Which goals a cancel request selects (the selection half of
 * rcl_action_process_cancel_request), stated over a snapshot of the registry.
 *
 * The request's identity and stamp choose one of three modes:
 *  - identity set, stamp zero: the first goal with that identity, if cancelable;
 *  - identity zero, stamp zero: every cancelable goal;
 *  - otherwise: every cancelable goal accepted at or before the stamp, or
 *    carrying the request's identity.
 */
module CancelPolicy {
  import opened Optional
  import opened Stamps
  import opened Goals
  import opened Expiry

  datatype CancelMode = SingleGoal | AllGoals | UpToStamp

  /** The mode tests of lines 601 and 621: a zero stamp reads as zero nanoseconds. */
  function ModeOf(request: GoalInfo): (m: CancelMode)
    ensures m == SingleGoal <==> !IsZeroUuid(request.uuid) && ToNanosec(request.stamp) == 0
    ensures m == AllGoals <==> IsZeroUuid(request.uuid) && ToNanosec(request.stamp) == 0
    ensures m == UpToStamp <==> ToNanosec(request.stamp) != 0
  {
    if ToNanosec(request.stamp) != 0 then UpToStamp
    else if IsZeroUuid(request.uuid) then AllGoals
    else SingleGoal
  }

  /** The stamp bound of the two multi-goal modes; "cancel all" uses INT64_MAX. */
  function Threshold(request: GoalInfo): Int64 {
    if ModeOf(request) == AllGoals then Int64Max else ToNanosec(request.stamp)
  }

  /** The multi-goal test applied to one handle. */
  predicate Picked(h: GoalHandle, threshold: int, uuid: Uuid) {
    IsCancelable(h) && (ToNanosec(h.info.stamp) <= threshold || h.info.uuid == uuid)
  }

  /** Indices of the first n handles that pass the multi-goal test, in array order. */
  function PickedAmong(goals: seq<GoalHandle>, threshold: int, uuid: Uuid, n: nat): seq<nat>
    requires n <= |goals|
  {
    if n == 0 then []
    else PickedAmong(goals, threshold, uuid, n - 1) + (if Picked(goals[n - 1], threshold, uuid) then [n - 1] else [])
  }

  predicate StrictlyIncreasing(s: seq<nat>) {
    forall j, k :: 0 <= j < k < |s| ==> s[j] < s[k]
  }

  /** A handle index is picked exactly when it is below n and passes the test. */
  lemma {:induction false} PickedAmongMembers(goals: seq<GoalHandle>, threshold: int, uuid: Uuid, n: nat)
    requires n <= |goals|
    ensures forall i :: i in PickedAmong(goals, threshold, uuid, n) <==> 0 <= i < n && Picked(goals[i], threshold, uuid)
  {
    if n > 0 {
      PickedAmongMembers(goals, threshold, uuid, n - 1);
    }
  }

  /** The picked indices are below n and in increasing order. */
  lemma {:induction false} PickedAmongOrdered(goals: seq<GoalHandle>, threshold: int, uuid: Uuid, n: nat)
    requires n <= |goals|
    ensures forall k :: 0 <= k < |PickedAmong(goals, threshold, uuid, n)| ==> PickedAmong(goals, threshold, uuid, n)[k] < n
    ensures StrictlyIncreasing(PickedAmong(goals, threshold, uuid, n))
  {
    if n > 0 {
      PickedAmongOrdered(goals, threshold, uuid, n - 1);
    }
  }

  /** The multi-goal selection: exactly the passing handles, distinct and in array order; empty exactly when none passes. */
  lemma PickedAmongSpec(goals: seq<GoalHandle>, threshold: int, uuid: Uuid, n: nat)
    requires n <= |goals|
    ensures forall i :: i in PickedAmong(goals, threshold, uuid, n) <==> 0 <= i < n && Picked(goals[i], threshold, uuid)
    ensures StrictlyIncreasing(PickedAmong(goals, threshold, uuid, n))
    ensures forall k :: 0 <= k < |PickedAmong(goals, threshold, uuid, n)| ==> PickedAmong(goals, threshold, uuid, n)[k] < n
    ensures PickedAmong(goals, threshold, uuid, n) == [] <==> forall i :: 0 <= i < n ==> !Picked(goals[i], threshold, uuid)
  {
    PickedAmongMembers(goals, threshold, uuid, n);
    PickedAmongOrdered(goals, threshold, uuid, n);
    var sel := PickedAmong(goals, threshold, uuid, n);
    if sel != [] {
      assert sel[0] in sel;
    }
  }

  /** The first handle at or after `from` whose info can be read and carries `uuid`. */
  function FirstMatch(goals: seq<GoalHandle>, uuid: Uuid, from: nat): (r: Option<nat>)
    requires from <= |goals|
    decreases |goals| - from
    ensures r.Some? ==> from <= r.value < |goals| && HasUuid(goals[r.value], uuid)
    ensures r.Some? ==> forall j :: from <= j < r.value ==> !HasUuid(goals[j], uuid)
    ensures r.None? ==> forall j :: from <= j < |goals| ==> !HasUuid(goals[j], uuid)
  {
    if from == |goals| then None
    else if HasUuid(goals[from], uuid) then Some(from)
    else FirstMatch(goals, uuid, from + 1)
  }

  /** Where the single-goal scan stops: at the first match, or at the end. */
  function SingleScanEnd(goals: seq<GoalHandle>, uuid: Uuid): (e: nat)
    ensures e <= |goals|
  {
    match FirstMatch(goals, uuid, 0)
    case Some(i) => i
    case None => |goals|
  }

  /**
   * The indices, in array order, of the goals the request selects: distinct,
   * in range and cancelable.
   */
  function CancelSelection(goals: seq<GoalHandle>, request: GoalInfo): (sel: seq<nat>)
    ensures StrictlyIncreasing(sel)
    ensures forall k :: 0 <= k < |sel| ==> sel[k] < |goals| && IsCancelable(goals[sel[k]])
  {
    match ModeOf(request)
    case SingleGoal =>
      (match FirstMatch(goals, request.uuid, 0)
       case Some(i) => if IsCancelable(goals[i]) then [i] else []
       case None => [])
    case _ =>
      PickedAmongSpec(goals, Threshold(request), request.uuid, |goals|);
      PickedAmong(goals, Threshold(request), request.uuid, |goals|)
  }

  /** The selection scan met a handle whose info could not be read. */
  predicate ScanFails(goals: seq<GoalHandle>, request: GoalInfo) {
    if ModeOf(request) == SingleGoal then !AllReadable(goals[..SingleScanEnd(goals, request.uuid)])
    else !AllReadable(goals)
  }

  /**
   * Identity set and stamp zero: at most one goal, the first readable one with
   * that identity, and only when it is cancelable.
   */
  lemma SingleGoalSelection(goals: seq<GoalHandle>, request: GoalInfo)
    requires !IsZeroUuid(request.uuid) && ToNanosec(request.stamp) == 0
    ensures |CancelSelection(goals, request)| <= 1
    ensures forall i :: i in CancelSelection(goals, request) <==>
      0 <= i < |goals| && HasUuid(goals[i], request.uuid) && IsCancelable(goals[i]) &&
      forall j :: 0 <= j < i ==> !HasUuid(goals[j], request.uuid)
  {
  }

  /** With unique readable identities, a single-goal request selects nothing exactly when no cancelable goal has the identity. */
  lemma SingleGoalSelectionUnique(goals: seq<GoalHandle>, request: GoalInfo)
    requires !IsZeroUuid(request.uuid) && ToNanosec(request.stamp) == 0
    requires UniqueUuids(goals) && AllReadable(goals)
    ensures CancelSelection(goals, request) == [] <==>
      forall i :: 0 <= i < |goals| && goals[i].info.uuid == request.uuid ==> !IsCancelable(goals[i])
  {
    SingleGoalSelection(goals, request);
  }

  /** Identity zero and stamp zero: every cancelable goal, whatever its stamp. */
  lemma AllGoalsSelection(goals: seq<GoalHandle>, request: GoalInfo)
    requires IsZeroUuid(request.uuid) && ToNanosec(request.stamp) == 0
    ensures forall i :: i in CancelSelection(goals, request) <==> 0 <= i < |goals| && IsCancelable(goals[i])
  {
    PickedAmongSpec(goals, Int64Max, request.uuid, |goals|);
  }

  /** A non-zero stamp: every cancelable goal accepted at or before it, or carrying the request's identity. */
  lemma UpToStampSelection(goals: seq<GoalHandle>, request: GoalInfo)
    requires ToNanosec(request.stamp) != 0
    ensures forall i :: i in CancelSelection(goals, request) <==>
      0 <= i < |goals| && IsCancelable(goals[i]) &&
      (ToNanosec(goals[i].info.stamp) <= ToNanosec(request.stamp) || goals[i].info.uuid == request.uuid)
  {
    PickedAmongSpec(goals, ToNanosec(request.stamp), request.uuid, |goals|);
  }

  /** The registry after the CANCEL event has been applied to the selected goals. */
  function MarkCanceling(goals: seq<GoalHandle>, sel: seq<nat>): seq<GoalHandle> {
    seq(|goals|, i requires 0 <= i < |goals| => if i in sel then goals[i].(state := Canceling) else goals[i])
  }

  /**
   * The CANCEL event changes a goal's state only: every slot keeps its info and
   * its readability, so a registry with unique identities keeps them.
   */
  lemma MarkCancelingKeepsUnique(goals: seq<GoalHandle>, sel: seq<nat>)
    requires UniqueUuids(goals)
    ensures UniqueUuids(MarkCanceling(goals, sel))
  {
    var marked := MarkCanceling(goals, sel);
    forall j, k | 0 <= j < k < |marked|
      ensures marked[j].info.uuid != marked[k].info.uuid
    {
      assert marked[j].info == goals[j].info && marked[k].info == goals[k].info;
    }
  }

  /** Marking one more selected goal updates exactly its slot. */
  lemma MarkOneMore(goals: seq<GoalHandle>, sel: seq<nat>, k: nat)
    requires k < |sel| && sel[k] < |goals| && sel[k] !in sel[..k]
    ensures MarkCanceling(goals, sel[..k + 1]) == MarkCanceling(goals, sel[..k])[sel[k] := goals[sel[k]].(state := Canceling)]
  {
    assert sel[..k + 1] == sel[..k] + [sel[k]];
  }

  /** FirstMatch looks at identities and readability only. */
  lemma {:induction false} FirstMatchSameIds(a: seq<GoalHandle>, b: seq<GoalHandle>, uuid: Uuid, from: nat)
    requires |a| == |b| && from <= |a|
    requires forall i :: 0 <= i < |a| ==> (HasUuid(a[i], uuid) <==> HasUuid(b[i], uuid))
    ensures FirstMatch(a, uuid, from) == FirstMatch(b, uuid, from)
    decreases |a| - from
  {
    if from < |a| && !HasUuid(a[from], uuid) {
      FirstMatchSameIds(a, b, uuid, from + 1);
    }
  }

  /**
   * Processing the same cancel request a second time selects nothing: every
   * goal the first request picked is now canceling, and every other goal is
   * as it was.
   */
  lemma CancelTwiceSelectsNothing(goals: seq<GoalHandle>, request: GoalInfo)
    ensures CancelSelection(MarkCanceling(goals, CancelSelection(goals, request)), request) == []
  {
    var sel := CancelSelection(goals, request);
    var marked := MarkCanceling(goals, sel);
    if ModeOf(request) == SingleGoal {
      FirstMatchSameIds(goals, marked, request.uuid, 0);
      match FirstMatch(goals, request.uuid, 0)
      case Some(i) =>
        if !IsCancelable(goals[i]) {
          assert marked[i] == goals[i];
        }
      case None =>
    } else {
      var th := Threshold(request);
      PickedAmongSpec(goals, th, request.uuid, |goals|);
      PickedAmongSpec(marked, th, request.uuid, |marked|);
      forall i | 0 <= i < |marked|
        ensures !Picked(marked[i], th, request.uuid)
      {
        if i !in sel {
          assert marked[i] == goals[i];
        }
      }
    }
  }

  /** No cancel request, of any mode, selects a goal the sweep would remove. */
  lemma ExpiredNeverCanceled(goals: seq<GoalHandle>, request: GoalInfo, i: nat, now: int, timeout: int)
    requires i < |goals| && Expired(goals[i], now, timeout)
    ensures i !in CancelSelection(goals, request)
  {
    ExpiredIsTerminal(goals[i], now, timeout);
  }
}
