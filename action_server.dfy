/**
 * The action server object (rcl_action_server_t and its implementation
 * struct): the lifecycle over its five channels, and the goal registry, a
 * growable array of goal handles with a count, with the operations that
 * accept goals, look them up, select and cancel them, sweep out expired ones
 * and snapshot their status.
 *
 * The clock is a parameter `now` (None when reading it fails); the answers of
 * the allocator and of the channel constructors are parameters too.
 */
module Server {
  import opened Optional
  import opened Stamps
  import opened ReturnCodes
  import opened Goals
  import opened CancelPolicy
  import opened Expiry
  import opened Lifecycle

  /** The result timeout of rcl_action_server_get_default_options: RCUTILS_S_TO_NS(15 * 60). */
  function DefaultResultTimeout(): (t: Int64)
    ensures 0 < t && NsToS(t) == 15 * 60 && NsRem(t) == 0
  {
    15 * 60 * NanosPerSecond
  }

  /**
   * What the collaborators of rcl_action_server_init answer: whether the
   * implementation struct can be allocated, the codes of each channel's name
   * lookup and construction, and whether the action name can be copied.
   */
  datatype InitEnv = InitEnv(
    implAllocOk: bool,
    nameLookup: Channel -> RclRet,
    create: Channel -> RclRet,
    nameCopyOk: bool)

  /**
   * SERVICE_INIT / PUBLISHER_INIT for one channel: the translated code of its
   * name lookup if that fails, else the translated code of its construction.
   */
  function ChannelResult(env: InitEnv, c: Channel): (r: RclRet)
    ensures r in {Ok, BadAlloc, ActionNameInvalid, Error}
    ensures r == Ok <==> env.nameLookup(c) == Ok && env.create(c) == Ok
    ensures env.nameLookup(c) != Ok ==> r == AllocFailureResult(env.nameLookup(c))
    ensures env.nameLookup(c) == Ok && env.create(c) != Ok ==> r == CreateResult(c, env.create(c))
  {
    if env.nameLookup(c) != Ok then AllocFailureResult(env.nameLookup(c))
    else if env.create(c) != Ok then CreateResult(c, env.create(c))
    else Ok
  }

  /**
   * The code of setting up the channels InitOrder[k..] in order: OK when every
   * one succeeds, otherwise the code of the first one that fails.
   */
  function SetupResult(env: InitEnv, k: nat): (r: RclRet)
    requires k <= |InitOrder|
    decreases |InitOrder| - k
    ensures r in {Ok, BadAlloc, ActionNameInvalid, Error}
    ensures r == Ok <==> forall j :: k <= j < |InitOrder| ==> ChannelResult(env, InitOrder[j]) == Ok
    ensures r != Ok ==>
      exists j :: k <= j < |InitOrder| && r == ChannelResult(env, InitOrder[j]) &&
        (forall i :: k <= i < j ==> ChannelResult(env, InitOrder[i]) == Ok)
  {
    if k == |InitOrder| then Ok
    else if ChannelResult(env, InitOrder[k]) != Ok then ChannelResult(env, InitOrder[k])
    else SetupResult(env, k + 1)
  }

  /** Setting up all channels succeeds exactly when every channel's name lookup and construction do. */
  lemma SetupSucceedsIffAllChannels(env: InitEnv)
    ensures SetupResult(env, 0) == Ok <==> forall c :: env.nameLookup(c) == Ok && env.create(c) == Ok
  {
    InitOrderCoversAll();
    if SetupResult(env, 0) == Ok {
      forall c ensures env.nameLookup(c) == Ok && env.create(c) == Ok {
        var j :| 0 <= j < |InitOrder| && InitOrder[j] == c;
        assert ChannelResult(env, InitOrder[j]) == Ok;
      }
    }
  }

  class ActionServer {
    /** action_server->impl != NULL */
    var impl: bool
    /** The channels that are currently valid. */
    var channels: set<Channel>
    var actionName: string
    /** options.result_timeout, in nanoseconds */
    var resultTimeout: Int64
    /** goal_handles and num_goal_handles: the live handles are the first numGoalHandles slots. */
    var goalHandles: array<GoalHandle>
    var numGoalHandles: nat

    ghost predicate Valid()
      reads this
    {
      numGoalHandles <= goalHandles.Length &&
      (!impl ==> channels == {} && numGoalHandles == 0)
    }

    /** The goals the registry tracks. */
    ghost function Goals(): seq<GoalHandle>
      reads this, goalHandles
      requires Valid()
    {
      goalHandles[..numGoalHandles]
    }

    /** rcl_action_server_is_valid: the implementation exists and all five channels are valid. */
    predicate IsValid()
      reads this
      ensures IsValid() <==> impl && forall c: Channel :: c in channels
    {
      InitOrderCoversAll();
      impl && AllChannels <= channels
    }

    /** rcl_action_get_zero_initialized_server */
    constructor ()
      ensures Valid() && !impl && !IsValid() && Goals() == []
    {
      impl := false;
      channels := {};
      actionName := "";
      resultTimeout := DefaultResultTimeout();
      goalHandles := new GoalHandle[0];
      numGoalHandles := 0;
    }

    /**
     * rcl_action_server_init: refuse an invalid node and an initialized server,
     * then create the channels in order; on any failure tear down through
     * Fini, leaving the server uninitialized.
     */
    method Init(nodeValid: bool, name: string, timeout: Int64, env: InitEnv) returns (ret: RclRet)
      requires Valid()
      modifies this
      ensures Valid()
      ensures !nodeValid ==> ret == NodeInvalid && unchanged(this)
      ensures nodeValid && old(impl) ==> ret == AlreadyInit && unchanged(this)
      ensures nodeValid && !old(impl) ==>
        (ret == Ok <==>
          env.implAllocOk && env.nameCopyOk &&
          forall c :: env.nameLookup(c) == Ok && env.create(c) == Ok)
      ensures nodeValid && !old(impl) && !env.implAllocOk ==> ret == BadAlloc
      ensures nodeValid && !old(impl) && env.implAllocOk ==>
        ret == (if SetupResult(env, 0) != Ok then SetupResult(env, 0) else if env.nameCopyOk then Ok else BadAlloc)
      ensures nodeValid && !old(impl) && ret == Ok ==>
        IsValid() && Goals() == [] && actionName == name && resultTimeout == timeout
      ensures nodeValid && !old(impl) && ret != Ok ==>
        !impl && channels == {} && ret in {BadAlloc, ActionNameInvalid, Error}
    {
      if !nodeValid {
        return NodeInvalid;
      }
      if impl {
        return AlreadyInit;
      }
      if !env.implAllocOk {
        return BadAlloc;
      }
      impl := true;
      numGoalHandles := 0;
      var made;
      ret, made := CreateChannels(env);
      channels := made;
      if ret == Ok && !env.nameCopyOk {
        ret := BadAlloc;
      }
      if ret != Ok {
        // the fail label: finalize whatever was created
        var discarded := Fini(true, _ => true);
        return;
      }
      actionName := name;
      resultTimeout := timeout;
      goalHandles := new GoalHandle[0];
    }

    /**
     * rcl_action_server_fini: nothing to do without an implementation;
     * otherwise finalize every channel even when one fails, report any failure
     * as a generic error, and drop the implementation.
     */
    method Fini(nodeValid: bool, finiOk: Channel -> bool) returns (ret: RclRet)
      requires Valid()
      modifies this
      ensures Valid()
      ensures !nodeValid ==> ret == NodeInvalid && unchanged(this)
      ensures nodeValid && !old(impl) ==> ret == Ok && unchanged(this)
      ensures nodeValid && old(impl) ==> !impl && !IsValid() && channels == {} && Goals() == []
      ensures nodeValid && old(impl) ==> (ret == Ok <==> forall c :: finiOk(c)) && ret in {Ok, Error}
    {
      if !nodeValid {
        return NodeInvalid;
      }
      ret := Ok;
      if impl {
        for k := 0 to |InitOrder|
          invariant ret in {Ok, Error}
          invariant ret == Ok <==> forall j :: 0 <= j < k ==> finiOk(InitOrder[j])
        {
          if !finiOk(InitOrder[k]) {
            ret := Error;
          }
        }
        assert (ret == Ok) == forall c :: finiOk(c) by {
          if ret == Ok {
            InitOrderCoversAll();
            forall c ensures finiOk(c) { assert c in InitOrder; }
          }
        }
        impl := false;
        channels := {};
        numGoalHandles := 0;
      }
    }

    /**
     * rcl_action_server_goal_exists: a linear scan comparing identities; a
     * handle whose info cannot be read ends the scan with "no".
     */
    method GoalExists(info: GoalInfo) returns (found: bool)
      requires Valid()
      ensures found <==> IsValid() && ScanFinds(Goals(), info.uuid)
    {
      if !IsValid() {
        return false;
      }
      ghost var goals := Goals();
      var i := 0;
      while i < numGoalHandles
        invariant 0 <= i <= numGoalHandles
        invariant AllReadable(goals[..i])
        invariant forall k :: 0 <= k < i ==> !HasUuid(goals[k], info.uuid)
      {
        var got := GetInfo(goalHandles[i]);
        if got.None? {
          assert forall k :: i < k <= |goals| ==> !AllReadable(goals[..k]) by {
            forall k | i < k <= |goals| ensures !goals[..k][i].valid { }
          }
          return false;
        }
        if got.value.uuid == info.uuid {
          assert HasUuid(goals[i], info.uuid);
          return true;
        }
        assert goals[..i + 1] == goals[..i] + [goals[i]];
        i := i + 1;
      }
      return false;
    }

    /**
     * rcl_action_accept_new_goal: refuse an identity the scan finds, grow the
     * array by one slot, stamp the goal with the clock and append a new handle.
     * Allocation and clock failures leave the registry as it was.
     */
    method AcceptNewGoal(info: GoalInfo, allocOk: bool, now: Option<Int64>) returns (handle: Option<GoalHandle>)
      requires Valid()
      modifies this
      ensures Valid()
      ensures impl == old(impl) && channels == old(channels)
      ensures resultTimeout == old(resultTimeout) && actionName == old(actionName)
      ensures handle.Some? <==>
        old(IsValid()) && !ScanFinds(old(Goals()), info.uuid) && allocOk && now.Some?
      ensures handle.Some? ==>
        handle.value == NewGoalHandle(GoalInfo(info.uuid, FromNanosec(now.value))) &&
        Goals() == old(Goals()) + [handle.value]
      ensures handle.None? ==> Goals() == old(Goals())
      ensures UniqueUuids(old(Goals())) && AllReadable(old(Goals())) ==> UniqueUuids(Goals())
    {
      if !IsValid() {
        return None;
      }
      var duplicate := GoalExists(info);
      if duplicate {
        return None;
      }
      if !allocOk || now.None? {
        return None;
      }
      var h := NewGoalHandle(GoalInfo(info.uuid, FromNanosec(now.value)));
      ghost var before := Goals();
      if UniqueUuids(before) && AllReadable(before) {
        ScanFindsTracked(before, info.uuid);
        AppendKeepsUnique(before, h);
      }
      var grown := GrowAppend(goalHandles, numGoalHandles, h);
      goalHandles := grown;
      numGoalHandles := numGoalHandles + 1;
      assert goalHandles[..numGoalHandles] == grown[..];
      handle := Some(h);
    }

    /** rcl_action_server_get_goal_handles: the live handles and their count. */
    method GetGoalHandles() returns (ret: RclRet, handles: seq<GoalHandle>, num: nat)
      requires Valid()
      ensures !IsValid() ==> ret == ActionServerInvalid && handles == [] && num == 0
      ensures IsValid() ==> ret == Ok && handles == Goals() && num == |Goals()|
    {
      if !IsValid() {
        return ActionServerInvalid, [], 0;
      }
      return Ok, goalHandles[..numGoalHandles], numGoalHandles;
    }

    /**
     * rcl_action_get_goal_status_array: one {info, status} entry per tracked
     * goal, in registry order; nothing is allocated for an empty registry,
     * and a handle whose info cannot be read discards the whole array.
     */
    method GetGoalStatusArray(arrayInit: RclRet) returns (ret: RclRet, statusList: seq<GoalStatus>)
      requires Valid()
      ensures !IsValid() ==> ret == ActionServerInvalid && statusList == []
      ensures IsValid() && Goals() == [] ==> ret == Ok && statusList == []
      ensures IsValid() && Goals() != [] && arrayInit != Ok ==>
        ret == AllocFailureResult(arrayInit) && statusList == []
      ensures IsValid() && Goals() != [] && arrayInit == Ok ==>
        (ret == Ok <==> AllReadable(Goals())) && (ret != Ok ==> ret == Error && statusList == [])
      ensures ret == Ok ==>
        |statusList| == |Goals()| &&
        forall i :: 0 <= i < |Goals()| ==> statusList[i] == GoalStatus(Goals()[i].info, Goals()[i].state)
    {
      if !IsValid() {
        return ActionServerInvalid, [];
      }
      var n := numGoalHandles;
      if n == 0 {
        return Ok, [];
      }
      if arrayInit != Ok {
        return AllocFailureResult(arrayInit), [];
      }
      var data := new GoalStatus[n](_ => GoalStatus(ZeroGoalInfo, Unknown));
      for i := 0 to n
        invariant AllReadable(goalHandles[..i])
        invariant forall k :: 0 <= k < i ==> data[k] == GoalStatus(goalHandles[k].info, goalHandles[k].state)
      {
        var got := GetInfo(goalHandles[i]);
        if got.None? {
          assert !goalHandles[..n][i].valid;
          return Error, [];
        }
        data[i] := GoalStatus(got.value, goalHandles[i].state);
        assert goalHandles[..i + 1] == goalHandles[..i] + [goalHandles[i]];
      }
      return Ok, data[..];
    }

    /**
     * rcl_action_process_cancel_request: select goals by the request's mode,
     * send each the CANCEL event and report each one's info in the response.
     */
    method ProcessCancelRequest(request: GoalInfo, bufferAllocOk: bool, responseInit: RclRet)
      returns (ret: RclRet, response: seq<GoalInfo>)
      requires Valid()
      modifies goalHandles
      ensures Valid()
      ensures !IsValid() ==> ret == ActionServerInvalid && response == [] && Goals() == old(Goals())
      ensures IsValid() && !bufferAllocOk ==> ret == BadAlloc && response == [] && Goals() == old(Goals())
      ensures IsValid() && bufferAllocOk && CancelSelection(old(Goals()), request) == [] ==>
        ret == (if ScanFails(old(Goals()), request) then Error else Ok) &&
        response == [] && Goals() == old(Goals())
      ensures IsValid() && bufferAllocOk && CancelSelection(old(Goals()), request) != [] && responseInit != Ok ==>
        ret == AllocFailureResult(responseInit) && response == [] && Goals() == old(Goals())
      ensures IsValid() && bufferAllocOk && CancelSelection(old(Goals()), request) != [] && responseInit == Ok ==>
        ret == (if ScanFails(old(Goals()), request) then Error else Ok) &&
        Goals() == MarkCanceling(old(Goals()), CancelSelection(old(Goals()), request)) &&
        |response| == |CancelSelection(old(Goals()), request)| &&
        forall k :: 0 <= k < |response| ==> response[k] == old(Goals())[CancelSelection(old(Goals()), request)[k]].info
      ensures UniqueUuids(old(Goals())) ==> UniqueUuids(Goals())
    {
      if !IsValid() {
        return ActionServerInvalid, [];
      }
      if !bufferAllocOk {
        return BadAlloc, [];
      }
      var scanFailed, toCancel := SelectGoalsToCancel(goalHandles, numGoalHandles, request);
      ret := if scanFailed then Error else Ok;
      if |toCancel| == 0 {
        return ret, [];
      }
      if responseInit != Ok {
        return AllocFailureResult(responseInit), [];
      }
      response := ApplyCancel(goalHandles, numGoalHandles, toCancel);
      if UniqueUuids(old(Goals())) {
        MarkCancelingKeepsUnique(old(Goals()), toCancel);
      }
    }

    /**
     * rcl_action_clear_expired_goals, with the compaction the source intends:
     * an expired goal is finalized and replaced by the last live handle, which
     * is examined in turn, and the new count is committed.
     */
    method ClearExpiredGoals(now: Option<Int64>) returns (ret: RclRet, numExpired: nat)
      requires Valid()
      requires IsValid() && now.Some? ==>
        forall k :: 0 <= k < numGoalHandles ==> ClockAhead(goalHandles[k], now.value)
      modifies this, goalHandles
      ensures Valid() && goalHandles == old(goalHandles)
      ensures impl == old(impl) && channels == old(channels)
      ensures resultTimeout == old(resultTimeout) && actionName == old(actionName)
      ensures !old(IsValid()) ==> ret == ActionServerInvalid && numExpired == 0 && Goals() == old(Goals())
      ensures old(IsValid()) && now.None? ==> ret == Error && numExpired == 0 && Goals() == old(Goals())
      ensures old(IsValid()) && now.Some? ==>
        multiset(Goals()) == multiset(Unexpired(old(Goals()), now.value, resultTimeout)) &&
        numExpired == CountExpired(old(Goals()), now.value, resultTimeout) &&
        |Goals()| == |old(Goals())| - numExpired &&
        (ret == Ok <==> AllReadable(old(Goals()))) && ret in {Ok, Error}
      ensures UniqueUuids(old(Goals())) ==> UniqueUuids(Goals())
      ensures old(IsValid()) && now.Some? && UniqueUuids(old(Goals())) ==>
        forall k :: 0 <= k < |old(Goals())| && Expired(old(Goals())[k], now.value, resultTimeout) ==>
          !Tracks(Goals(), old(Goals())[k].info.uuid)
    {
      if !IsValid() {
        return ActionServerInvalid, 0;
      }
      if now.None? {
        return Error, 0;
      }
      var n;
      n, ret, numExpired := SweepExpired(goalHandles, numGoalHandles, now.value, resultTimeout);
      numGoalHandles := n;
      if UniqueUuids(old(Goals())) {
        SweepKeepsUnique(Goals(), old(Goals()), now.value, resultTimeout);
      }
    }
  }

  /** Compaction in place: the last of the first n slots of a moves into slot i. */
  method MoveLastInto(a: array<GoalHandle>, i: nat, n: nat)
    requires i < n <= a.Length
    modifies a
    ensures a[..n - 1] == old(a[..n])[i := old(a[n - 1])][..n - 1]
  {
    ghost var live := a[..n];
    a[i] := a[n - 1];
    assert a[..n] == live[i := live[n - 1]];
  }

  /**
   * The loop of rcl_action_clear_expired_goals over the first n0 slots of a:
   * an expired handle is replaced by the last live one, which is examined in
   * turn; returns the new count, the status and how many were removed.
   */
  method SweepExpired(a: array<GoalHandle>, n0: nat, now: Int64, timeout: Int64)
    returns (n: nat, ret: RclRet, numExpired: nat)
    requires n0 <= a.Length
    requires forall k :: 0 <= k < n0 ==> ClockAhead(a[k], now)
    modifies a
    ensures n <= n0
    ensures multiset(a[..n]) == multiset(Unexpired(old(a[..n0]), now, timeout))
    ensures numExpired == CountExpired(old(a[..n0]), now, timeout) && n == n0 - numExpired
    ensures ret in {Ok, Error} && (ret == Ok <==> AllReadable(old(a[..n0])))
  {
    ghost var before := a[..n0];
    ghost var live := before;
    numExpired := 0;
    ret := Ok;
    n := n0;
    var i := 0;
    while i < n
      invariant 0 <= i <= n <= n0
      invariant a[..n] == live
      invariant AllClockAhead(live, now)
      invariant SweepFrom(live, i, now, timeout) == SweepFrom(before, 0, now, timeout)
      invariant n + numExpired == n0
      invariant ret in {Ok, Error} && (ret == Ok <==> forall k :: 0 <= k < i ==> live[k].valid)
      decreases n - i
    {
      assert a[i] == live[i];
      var expired, unreadable := ExamineSlot(a, n, i, now, timeout);
      if unreadable {
        ret := Error;
      }
      if expired {
        n := n - 1;
        CompactionKeepsClockAhead(live, i, now);
        live := RemoveCompacted(live, i);
        numExpired := numExpired + 1;
      } else {
        i := i + 1;
      }
    }
    assert ret == Ok <==> AllReadable(live);
    SweepFromSpec(before, 0, now, timeout);
  }

  /**
   * The cancel loop of rcl_action_process_cancel_request over the first n
   * slots of a: each selected handle takes the CANCEL event, and its info is
   * reported in selection order.
   */
  method ApplyCancel(a: array<GoalHandle>, n: nat, toCancel: seq<nat>) returns (response: seq<GoalInfo>)
    requires n <= a.Length
    requires StrictlyIncreasing(toCancel)
    requires forall k :: 0 <= k < |toCancel| ==> toCancel[k] < n && IsCancelable(a[toCancel[k]])
    modifies a
    ensures a[..n] == MarkCanceling(old(a[..n]), toCancel)
    ensures |response| == |toCancel|
    ensures forall k :: 0 <= k < |toCancel| ==> response[k] == old(a[toCancel[k]]).info
  {
    ghost var before := a[..n];
    assert forall k :: 0 <= k < |toCancel| ==> IsCancelable(before[toCancel[k]]);
    var data := new GoalInfo[|toCancel|](_ => ZeroGoalInfo);
    assert MarkCanceling(before, toCancel[..0]) == before;
    for k := 0 to |toCancel|
      invariant a[..n] == MarkCanceling(before, toCancel[..k])
      invariant forall j :: 0 <= j < k ==> data[j] == before[toCancel[j]].info
    {
      var idx := toCancel[k];
      ghost var marked := MarkCanceling(before, toCancel[..k]);
      assert idx !in toCancel[..k];
      assert marked[idx] == before[idx];
      assert a[idx] == a[..n][idx];
      // a selected goal is cancelable, so its state machine accepts the CANCEL event
      var next := CancelEvent(a[idx]).value;
      MarkOneMore(before, toCancel, k);
      a[idx] := next;
      data[k] := next.info;
    }
    assert toCancel[..|toCancel|] == toCancel;
    response := data[..];
  }

  /**
   * SERVICE_INIT and PUBLISHER_INIT in the order of rcl_action_server_init:
   * look up each channel's name and create it, stopping at the first
   * failure.  Succeeds exactly when every channel can be looked up and
   * created, and then all five exist.
   */
  method CreateChannels(env: InitEnv) returns (ret: RclRet, made: set<Channel>)
    ensures ret == SetupResult(env, 0)
    ensures ret in {Ok, BadAlloc, ActionNameInvalid, Error}
    ensures ret == Ok <==> forall c :: env.nameLookup(c) == Ok && env.create(c) == Ok
    ensures ret == Ok ==> made == AllChannels
    ensures made <= AllChannels
  {
    ret := Ok;
    made := {};
    var k := 0;
    while k < |InitOrder| && ret == Ok
      invariant 0 <= k <= |InitOrder|
      invariant made == set j | 0 <= j < k :: InitOrder[j]
      invariant ret == Ok ==> SetupResult(env, 0) == SetupResult(env, k)
      invariant ret != Ok ==> ret == SetupResult(env, 0)
      decreases |InitOrder| - k, if ret == Ok then 1 else 0
    {
      var c := InitOrder[k];
      var looked := env.nameLookup(c);
      if looked != Ok {
        ret := AllocFailureResult(looked);
      } else {
        var created := env.create(c);
        if created != Ok {
          ret := CreateResult(c, created);
        } else {
          assert SetupResult(env, k) == SetupResult(env, k + 1) by {
            assert ChannelResult(env, c) == Ok;
          }
          made := made + {c};
          k := k + 1;
        }
      }
    }
    SetupSucceedsIffAllChannels(env);
    if ret == Ok {
      InitOrderCoversAll();
      forall c ensures c in made {
        assert c in InitOrder;
      }
    }
  }

  /**
   * The selection half of rcl_action_process_cancel_request over the first n
   * slots of a: fills the temporary array of indices to cancel, and reports
   * whether a handle whose info could not be read was met.
   */
  method SelectGoalsToCancel(a: array<GoalHandle>, n: nat, request: GoalInfo) returns (scanFailed: bool, toCancel: seq<nat>)
    requires n <= a.Length
    ensures toCancel == CancelSelection(a[..n], request)
    ensures scanFailed == ScanFails(a[..n], request)
  {
    var requestNs := ToNanosec(request.stamp);
    if !IsZeroUuid(request.uuid) && requestNs == 0 {
      scanFailed, toCancel := SelectSingleGoal(a, n, request);
    } else {
      var threshold := if IsZeroUuid(request.uuid) && requestNs == 0 then Int64Max else requestNs;
      scanFailed, toCancel := SelectUpTo(a, n, threshold, request.uuid);
    }
  }

  /** Identity set, stamp zero: stop at the first readable goal with that identity. */
  method SelectSingleGoal(a: array<GoalHandle>, n: nat, request: GoalInfo) returns (scanFailed: bool, toCancel: seq<nat>)
    requires n <= a.Length
    requires ModeOf(request) == SingleGoal
    ensures toCancel == CancelSelection(a[..n], request)
    ensures scanFailed == ScanFails(a[..n], request)
  {
    ghost var goals := a[..n];
    var i := 0;
    scanFailed := false;
    while i < n
      invariant 0 <= i <= n
      invariant forall k :: 0 <= k < i ==> !HasUuid(goals[k], request.uuid)
      invariant scanFailed == !AllReadable(goals[..i])
    {
      var h := a[i];
      var got := GetInfo(h);
      if got.Some? && got.value.uuid == request.uuid {
        assert FirstMatch(goals, request.uuid, 0) == Some(i);
        toCancel := if IsCancelable(h) then [i] else [];
        return;
      }
      if got.None? {
        scanFailed := true;
      }
      assert goals[..i + 1] == goals[..i] + [goals[i]];
      i := i + 1;
    }
    assert FirstMatch(goals, request.uuid, 0) == None;
    assert goals[..n] == goals;
    toCancel := [];
  }

  /** Every cancelable goal at or before the threshold, or with the identity. */
  method SelectUpTo(a: array<GoalHandle>, n: nat, threshold: int, uuid: Uuid) returns (scanFailed: bool, toCancel: seq<nat>)
    requires n <= a.Length
    ensures toCancel == PickedAmong(a[..n], threshold, uuid, n)
    ensures scanFailed == !AllReadable(a[..n])
  {
    ghost var goals := a[..n];
    var buffer := new nat[n];
    var count := 0;
    scanFailed := false;
    for i := 0 to n
      invariant count <= i
      invariant buffer[..count] == PickedAmong(goals, threshold, uuid, i)
      invariant scanFailed == !AllReadable(goals[..i])
    {
      var h := a[i];
      var got := GetInfo(h);
      assert goals[..i + 1] == goals[..i] + [goals[i]];
      if got.None? {
        scanFailed := true;
        continue;
      }
      var goalNs := ToNanosec(got.value.stamp);
      if IsCancelable(h) && (goalNs <= threshold || got.value.uuid == uuid) {
        buffer[count] := i;
        count := count + 1;
      }
    }
    assert goals[..n] == goals;
    toCancel := buffer[..count];
  }

  /**
   * The reallocation of rcl_action_accept_new_goal: a fresh array one slot
   * longer holding the first n handles of a, with h in the new last slot.
   */
  method GrowAppend(a: array<GoalHandle>, n: nat, h: GoalHandle) returns (grown: array<GoalHandle>)
    requires n <= a.Length
    ensures fresh(grown)
    ensures grown[..] == a[..n] + [h]
  {
    grown := new GoalHandle[n + 1](_ => h);
    for k := 0 to n
      invariant grown[..k] == a[..k]
      invariant grown[n] == h
    {
      grown[k] := a[k];
    }
    assert grown[..] == grown[..n] + [h];
  }

  /**
   * One iteration of the loop of rcl_action_clear_expired_goals at slot i of
   * the first n slots of a: an active goal is skipped, a goal whose info
   * cannot be read is reported, and an expired one is finalized (it is valid,
   * so that succeeds) and replaced by the last live handle.
   */
  method ExamineSlot(a: array<GoalHandle>, n: nat, i: nat, now: Int64, timeout: Int64) returns (expired: bool, unreadable: bool)
    requires i < n <= a.Length
    requires ClockAhead(a[i], now)
    modifies a
    ensures expired == Expired(old(a[i]), now, timeout)
    ensures unreadable == (!IsActive(old(a[i])) && !old(a[i]).valid)
    ensures expired ==> a[..n - 1] == RemoveCompacted(old(a[..n]), i)
    ensures !expired ==> a[..n] == old(a[..n])
  {
    var h := a[i];
    expired, unreadable := false, false;
    if IsActive(h) {
      return;
    }
    var got := GetInfo(h);
    if got.None? {
      unreadable := true;
      return;
    }
    var goalTime := ToNanosec(got.value.stamp);
    assert now > goalTime;
    if now - goalTime > timeout {
      expired := true;
      MoveLastInto(a, i, n);
    }
  }
}
