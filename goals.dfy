/**
 * Goal identities, goal infos and goal handles as the action server sees them.
 *
 * The goal handle's state machine lives outside the server (goal_handle.c is
 * not part of this model); the server only asks whether a handle is valid,
 * active or cancelable, reads its info and status, and sends it the CANCEL
 * event.  Those queries are given here over a small value: the handle's info,
 * its lifecycle state and whether it is still valid (not yet finalized).
 */
module Goals {
  import opened Optional
  import opened Stamps

  type Byte = b: int | 0 <= b < 256

  /** A 16-byte unique_identifier_msgs/UUID. */
  type Uuid = s: seq<Byte> | |s| == 16 witness seq(16, _ => 0)

  /** uuidcmpzero: every byte is zero; the wildcard identity of a cancel request. */
  predicate IsZeroUuid(u: Uuid) {
    forall k :: 0 <= k < |u| ==> u[k] == 0
  }

  /** action_msgs/GoalInfo: the goal's identity and the time it was accepted. */
  datatype GoalInfo = GoalInfo(uuid: Uuid, stamp: Time)

  /** rcl_action_get_zero_initialized_goal_info */
  const ZeroGoalInfo: GoalInfo := GoalInfo(seq(16, _ => 0), Time(0, 0))

  /** The lifecycle states of action_msgs/GoalStatus; Unknown is the zero-initialized status. */
  datatype GoalState = Unknown | Accepted | Executing | Canceling | Succeeded | Canceled | Aborted

  /** One tracked goal.  `valid` is false once the handle has been finalized. */
  datatype GoalHandle = GoalHandle(info: GoalInfo, state: GoalState, valid: bool)

  /** One entry of the status array: the goal's info and its status. */
  datatype GoalStatus = GoalStatus(goalInfo: GoalInfo, status: GoalState)

  /** rcl_action_goal_handle_init: a valid handle in the ACCEPTED state. */
  function NewGoalHandle(info: GoalInfo): (h: GoalHandle)
    ensures h.valid && h.info == info
    ensures IsCancelable(h)
  {
    GoalHandle(info, Accepted, true)
  }

  /** rcl_action_goal_handle_is_active: a valid handle in a non-terminal state. */
  predicate IsActive(h: GoalHandle) {
    h.valid && h.state in {Accepted, Executing, Canceling}
  }

  /** rcl_action_goal_handle_is_cancelable: active and not already canceling. */
  predicate IsCancelable(h: GoalHandle) {
    h.valid && h.state in {Accepted, Executing}
  }

  /** rcl_action_goal_handle_get_info: fails on a finalized handle. */
  function GetInfo(h: GoalHandle): (r: Option<GoalInfo>)
    ensures r.Some? <==> h.valid
    ensures r.Some? ==> r.value == h.info
  {
    if h.valid then Some(h.info) else None
  }

  /**
   * rcl_action_update_goal_state(h, GOAL_EVENT_CANCEL): the state machine has a
   * CANCEL transition out of ACCEPTED and EXECUTING only, into CANCELING.
   */
  function CancelEvent(h: GoalHandle): (r: Option<GoalHandle>)
    ensures r.Some? <==> IsCancelable(h)
    ensures r.Some? ==> r.value.info == h.info && r.value.state == Canceling && r.value.valid
    ensures r.Some? ==> IsActive(r.value) && !IsCancelable(r.value)
  {
    if h.valid && (h.state == Accepted || h.state == Executing) then Some(h.(state := Canceling)) else None
  }

  /** The handle carries this identity and its info can be read (get_info succeeds and uuidcmp holds). */
  predicate HasUuid(h: GoalHandle, uuid: Uuid) {
    h.valid && h.info.uuid == uuid
  }

  /** Some handle of the registry carries this identity. */
  predicate Tracks(goals: seq<GoalHandle>, uuid: Uuid) {
    exists k :: 0 <= k < |goals| && HasUuid(goals[k], uuid)
  }

  /** Every handle of the registry can be read. */
  predicate AllReadable(goals: seq<GoalHandle>) {
    forall k :: 0 <= k < |goals| ==> goals[k].valid
  }

  /** No two handles of the registry share an identity. */
  predicate UniqueUuids(goals: seq<GoalHandle>) {
    forall j, k :: 0 <= j < k < |goals| ==> goals[j].info.uuid != goals[k].info.uuid
  }

  /**
   * What rcl_action_server_goal_exists reports: the scan stops with "no" at the
   * first handle whose info cannot be read, and with "yes" at the first match.
   */
  predicate ScanFinds(goals: seq<GoalHandle>, uuid: Uuid) {
    exists k :: 0 <= k < |goals| && HasUuid(goals[k], uuid) && AllReadable(goals[..k])
  }

  /** When every handle is readable the scan answers exactly "is this identity tracked". */
  lemma ScanFindsTracked(goals: seq<GoalHandle>, uuid: Uuid)
    requires AllReadable(goals)
    ensures ScanFinds(goals, uuid) <==> Tracks(goals, uuid)
  {
    if Tracks(goals, uuid) {
      var k :| 0 <= k < |goals| && HasUuid(goals[k], uuid);
      assert AllReadable(goals[..k]);
    }
  }

  /** Appending a handle whose identity the registry does not track keeps the identities unique. */
  lemma AppendKeepsUnique(goals: seq<GoalHandle>, h: GoalHandle)
    requires UniqueUuids(goals) && AllReadable(goals)
    requires !Tracks(goals, h.info.uuid)
    ensures UniqueUuids(goals + [h])
  {
    forall j, k | 0 <= j < k < |goals + [h]|
      ensures (goals + [h])[j].info.uuid != (goals + [h])[k].info.uuid
    {
      if k == |goals| {
        assert !HasUuid(goals[j], h.info.uuid);
      }
    }
  }

  /** In a registry with unique identities no handle occurs twice. */
  lemma {:induction false} UniqueOccursOnce(goals: seq<GoalHandle>, h: GoalHandle)
    requires UniqueUuids(goals)
    ensures multiset(goals)[h] <= 1
  {
    if goals != [] {
      var init := goals[..|goals| - 1];
      assert goals == init + [goals[|goals| - 1]];
      assert UniqueUuids(init);
      UniqueOccursOnce(init, h);
      if goals[|goals| - 1] == h {
        forall j | 0 <= j < |init|
          ensures init[j] != h
        {
          assert goals[j].info.uuid != goals[|goals| - 1].info.uuid;
        }
      }
    }
  }

  /**
   * Any rearrangement of part of a registry with unique identities (a
   * sub-multiset of it) still has unique identities.
   */
  lemma SubMultisetKeepsUnique(part: seq<GoalHandle>, goals: seq<GoalHandle>)
    requires UniqueUuids(goals)
    requires multiset(part) <= multiset(goals)
    ensures UniqueUuids(part)
  {
    forall j, k | 0 <= j < k < |part|
      ensures part[j].info.uuid != part[k].info.uuid
    {
      assert part[j] in multiset(goals) && part[k] in multiset(goals);
      if part[j] == part[k] {
        assert part == part[..k] + part[k..];
        assert part[j] in part[..k] && part[k] in part[k..];
        assert multiset(part)[part[k]] >= 2;
        UniqueOccursOnce(goals, part[k]);
      } else {
        var p :| 0 <= p < |goals| && goals[p] == part[j];
        var q :| 0 <= q < |goals| && goals[q] == part[k];
        assert p != q;
      }
    }
  }

  /**
   * Removal by compaction: the last entry moves into slot i and the sequence
   * shrinks by one.  Order is lost, contents are not.
   */
  function RemoveCompacted(s: seq<GoalHandle>, i: nat): (r: seq<GoalHandle>)
    requires i < |s|
    ensures |r| == |s| - 1
    ensures multiset(r) + multiset{s[i]} == multiset(s)
    ensures forall k :: 0 <= k < i ==> r[k] == s[k]
  {
    CompactedParts(s, i);
    s[i := s[|s| - 1]][..|s| - 1]
  }

  /** The compacted sequence is the prefix, the moved last entry and the middle. */
  lemma CompactedParts(s: seq<GoalHandle>, i: nat)
    requires i < |s|
    ensures multiset(s[i := s[|s| - 1]][..|s| - 1]) + multiset{s[i]} == multiset(s)
  {
    var last := |s| - 1;
    var r := s[i := s[last]][..last];
    if i == last {
      assert s == r + [s[last]];
    } else {
      assert s == s[..i] + [s[i]] + s[i + 1..last] + [s[last]];
      assert r == s[..i] + [s[last]] + s[i + 1..last];
    }
  }
}
